/**
 * The landing page: the shortened wallet address, the tool catalogue's search and
 * category filter, the category list with its counts, the cursor trail, the category
 * buttons and the "connect wallet" button.
 */
module LandingPage {
  import opened Wrappers
  import opened JsStrings
  import ToolsSettings

  type Tool = ToolsSettings.Tool

  // ------------------------------------------------------------------
  // shortenAddress
  // ------------------------------------------------------------------

  /** `${address.slice(0, 2)}..${address.slice(-2)}`. */
  function ShortenAddress(address: string): (r: string)
    ensures |address| >= 2 ==>
      |r| == 6 && r[..2] == address[..2] && r[2..4] == ".." && r[4..] == address[|address| - 2..]
    ensures |address| < 2 ==> r == address + ".." + address
  {
    Slice(address, 0, 2) + ".." + Slice(address, -2, |address|)
  }

  // ------------------------------------------------------------------
  // The tool catalogue's filter
  // ------------------------------------------------------------------

  /** The lower-cased term occurs in the lower-cased name, description or identifier. */
  predicate SearchMatches(t: Tool, term: string) {
    var q := ToLower(term);
    Includes(ToLower(t.name), q) || Includes(ToLower(t.description), q) || Includes(ToLower(t.identifier), q)
  }

  predicate InCategory(t: Tool, activeCategory: string) {
    activeCategory == "All" || t.category == activeCategory
  }

  predicate Shown(t: Tool, term: string, activeCategory: string) {
    SearchMatches(t, term) && InCategory(t, activeCategory)
  }

  /** `toolsData.filter(...)`: the tools matching the term in the active category, in data order. */
  function FilteredTools(tools: seq<Tool>, term: string, activeCategory: string): (r: seq<Tool>)
    ensures |r| <= |tools|
    ensures forall t :: t in r <==> t in tools && Shown(t, term, activeCategory)
  {
    if tools == [] then []
    else
      var last := tools[|tools| - 1];
      var init := tools[..|tools| - 1];
      assert forall t :: t in tools <==> t in init || t == last;
      FilteredTools(init, term, activeCategory) + (if Shown(last, term, activeCategory) then [last] else [])
  }

  /** Every string contains the empty string. */
  lemma IncludesEmpty(s: string)
    ensures Includes(s, "")
  {
    assert OccursAt(s, "", 0);
  }

  /** An empty term keeps every tool of the active category. */
  lemma EmptyTermKeepsCategory(tools: seq<Tool>, activeCategory: string)
    ensures forall t :: t in FilteredTools(tools, "", activeCategory) <==> t in tools && InCategory(t, activeCategory)
  {
    forall t: Tool ensures SearchMatches(t, "") {
      IncludesEmpty(ToLower(t.name));
    }
  }

  /** With no term and the "All" category the catalogue is shown whole, in data order. */
  lemma {:induction false} UnfilteredIsIdentity(tools: seq<Tool>)
    ensures FilteredTools(tools, "", "All") == tools
  {
    if tools != [] {
      UnfilteredIsIdentity(tools[..|tools| - 1]);
      IncludesEmpty(ToLower(tools[|tools| - 1].name));
    }
  }

  // ------------------------------------------------------------------
  // categoriesWithCount
  // ------------------------------------------------------------------

  /** `toolsData.map(tool => tool.category)`. */
  function Categories(tools: seq<Tool>): (cs: seq<string>)
    ensures |cs| == |tools| && forall i :: 0 <= i < |tools| ==> cs[i] == tools[i].category
  {
    if tools == [] then [] else Categories(tools[..|tools| - 1]) + [tools[|tools| - 1].category]
  }

  predicate NoDuplicates(xs: seq<string>) {
    forall i, j :: 0 <= i < j < |xs| ==> xs[i] != xs[j]
  }

  /** `Array.from(new Set(xs))`: each value once, in order of first appearance. */
  function Unique(xs: seq<string>): (r: seq<string>)
    ensures NoDuplicates(r)
    ensures forall x :: x in r <==> x in xs
  {
    if xs == [] then []
    else
      var u := Unique(xs[..|xs| - 1]);
      assert forall x :: x in xs <==> x in xs[..|xs| - 1] || x == xs[|xs| - 1];
      if xs[|xs| - 1] in u then u else u + [xs[|xs| - 1]]
  }

  /**
   * The default order of `Array.prototype.sort` for strings: `a` is a prefix of `b`, or
   * at their first difference `a` has the smaller character.
   */
  predicate LexLe(a: string, b: string) {
    if a == [] then true
    else if b == [] then false
    else if a[0] != b[0] then a[0] < b[0]
    else LexLe(a[1..], b[1..])
  }

  lemma {:induction false} LexTotal(a: string, b: string)
    ensures LexLe(a, b) || LexLe(b, a)
  {
    if a != [] && b != [] && a[0] == b[0] {
      LexTotal(a[1..], b[1..]);
    }
  }

  lemma {:induction false} LexAntisymmetric(a: string, b: string)
    requires LexLe(a, b) && LexLe(b, a)
    ensures a == b
  {
    if a != [] && b != [] {
      LexAntisymmetric(a[1..], b[1..]);
      assert a == [a[0]] + a[1..] && b == [b[0]] + b[1..];
    }
  }

  predicate Sorted(s: seq<string>) {
    forall i :: 0 < i < |s| ==> LexLe(s[i - 1], s[i])
  }

  function Insert(x: string, s: seq<string>): (r: seq<string>)
    requires Sorted(s)
    ensures Sorted(r) && multiset(r) == multiset(s) + multiset{x}
    ensures r != [] && (r[0] == x || (s != [] && r[0] == s[0]))
  {
    if s == [] || LexLe(x, s[0]) then [x] + s
    else
      LexTotal(x, s[0]);
      var rest := Insert(x, s[1..]);
      assert s == [s[0]] + s[1..];
      [s[0]] + rest
  }

  /** `.sort()` on strings. */
  function Sort(s: seq<string>): (r: seq<string>)
    ensures Sorted(r) && multiset(r) == multiset(s)
  {
    if s == [] then []
    else
      assert s == [s[0]] + s[1..];
      Insert(s[0], Sort(s[1..]))
  }

  /** The number of tools in category `c`. */
  function CountIn(tools: seq<Tool>, c: string): (n: nat)
    ensures n <= |tools|
    ensures n > 0 <==> exists t :: t in tools && t.category == c
  {
    if tools == [] then 0
    else
      var last := tools[|tools| - 1];
      var init := tools[..|tools| - 1];
      assert forall t :: t in tools <==> t in init || t == last;
      CountIn(init, c) + (if last.category == c then 1 else 0)
  }

  datatype CategoryCount = CategoryCount(name: string, count: nat)

  /** The names of the category buttons: "All" and each distinct category, sorted. */
  function CategoryNames(tools: seq<Tool>): seq<string> {
    Sort(["All"] + Unique(Categories(tools)))
  }

  /** "All" counts every tool, any other name the tools in that category. */
  function CountFor(tools: seq<Tool>, name: string): nat {
    if name == "All" then |tools| else CountIn(tools, name)
  }

  /** `categoriesWithCount`. */
  function CategoriesWithCount(tools: seq<Tool>): (r: seq<CategoryCount>)
    ensures |r| == |CategoryNames(tools)|
    ensures forall i :: 0 <= i < |r| ==> r[i] == CategoryCount(CategoryNames(tools)[i], CountFor(tools, CategoryNames(tools)[i]))
  {
    var names := CategoryNames(tools);
    seq(|names|, i requires 0 <= i < |names| => CategoryCount(names[i], CountFor(tools, names[i])))
  }

  /**
   * The category list is sorted and names "All" and exactly the tools' categories; "All"
   * counts every tool, and each category the tools in it, at least one.
   */
  lemma CategoriesWithCountSpec(tools: seq<Tool>)
    ensures var r := CategoriesWithCount(tools);
      && Sorted(CategoryNames(tools))
      && (forall c :: c in CategoryNames(tools) <==> c == "All" || exists t :: t in tools && t.category == c)
      && (forall i :: 0 <= i < |r| && r[i].name == "All" ==> r[i].count == |tools|)
      && (forall i :: 0 <= i < |r| && r[i].name != "All" ==> 0 < r[i].count == CountIn(tools, r[i].name))
  {
    var names := CategoryNames(tools);
    var cs := Categories(tools);
    forall c ensures c in names <==> c == "All" || exists t :: t in tools && t.category == c {
      calc {
        c in names;
        c in multiset(names);
        c in multiset(["All"] + Unique(cs));
        c == "All" || c in Unique(cs);
      }
      if c in cs {
        var i :| 0 <= i < |cs| && cs[i] == c;
        assert tools[i] in tools;
      }
      if t :| t in tools && t.category == c {
        var i :| 0 <= i < |tools| && tools[i] == t;
        assert cs[i] == c;
      }
    }
    var r := CategoriesWithCount(tools);
    forall i | 0 <= i < |r| && r[i].name != "All" ensures 0 < r[i].count {
      assert names[i] in names;
    }
  }

  /**
   * The list has one entry more than there are distinct categories, so the page's
   * "categories" figure, the list's length minus one, counts them.
   */
  lemma CategoryCountLength(tools: seq<Tool>)
    ensures |CategoriesWithCount(tools)| - 1 == |Unique(Categories(tools))|
  {
    var u := Unique(Categories(tools));
    var names := CategoryNames(tools);
    assert |names| == |multiset(names)| == |multiset(["All"] + u)| == |["All"] + u|;
  }

  // ------------------------------------------------------------------
  // The cursor trail
  // ------------------------------------------------------------------

  datatype Point = Point(x: int, y: int)

  const Origin := Point(0, 0)
  const TrailCount: nat := 10

  /** `[mousePosition, ...positions.slice(0, -1)]`. */
  function Shifted(positions: seq<Point>, mouse: Point): (r: seq<Point>)
    ensures |r| == if positions == [] then 1 else |positions|
    ensures r[0] == mouse && forall i :: 0 <= i < |positions| - 1 ==> r[i + 1] == positions[i]
  {
    [mouse] + DropLast(positions)
  }

  /** `positions.slice(0, -1)`: every element but the last. */
  function DropLast(positions: seq<Point>): (r: seq<Point>)
    ensures r == if positions == [] then [] else positions[..|positions| - 1]
  {
    var to := ClampIndex(-1, |positions|);
    positions[..to]
  }

  /** The trail `k` frames after the effect started: `k` copies of the mouse position, then the origin. */
  function TrailAfter(k: nat, mouse: Point): (r: seq<Point>)
    ensures |r| == TrailCount
  {
    seq(TrailCount, i => if i < k then mouse else Origin)
  }

  /** One frame turns the trail after `k` frames into the trail after `k + 1`. */
  lemma ShiftedTrail(k: nat, mouse: Point)
    ensures Shifted(TrailAfter(k, mouse), mouse) == TrailAfter(k + 1, mouse)
  {
  }

  /**
   * The animation effect of one mouse position (it restarts whenever the mouse moves):
   * ten positions at the origin, shifted once per frame.
   */
  class TrailAnimation {
    const mouse: Point
    var positions: seq<Point>
    ghost var frames: nat

    ghost predicate Valid()
      reads this
    {
      positions == TrailAfter(frames, mouse)
    }

    constructor(mouse: Point)
      ensures this.mouse == mouse && frames == 0 && Valid()
      ensures positions == seq(TrailCount, _ => Origin)
    {
      this.mouse := mouse;
      positions := seq(TrailCount, _ => Origin);
      frames := 0;
    }

    /** `animateTrails`: the mouse position enters at the front and every entry moves back one place. */
    method Frame()
      requires Valid()
      modifies this`positions, this`frames
      ensures Valid() && frames == old(frames) + 1
      ensures |positions| == TrailCount && positions[0] == mouse
      ensures forall i :: 0 <= i < TrailCount - 1 ==> positions[i + 1] == old(positions)[i]
    {
      ShiftedTrail(frames, mouse);
      positions := [mouse] + positions[..|positions| - 1];
      frames := frames + 1;
    }
  }

  // ------------------------------------------------------------------
  // Category buttons and the wallet button
  // ------------------------------------------------------------------

  /** `localStorage.getItem(key)`. */
  function GetItem(storage: map<string, string>, key: string): (r: Option<string>)
    ensures r.Some? <==> key in storage
    ensures key in storage ==> r == Some(storage[key])
  {
    if key in storage then Some(storage[key]) else None
  }

  /** A stored signature that belongs to the connected key. */
  predicate StoredFor(storage: map<string, string>, publicKey: string) {
    Truthy(GetItem(storage, "walletSignature")) && GetItem(storage, "walletPublicKey") == Some(publicKey)
  }

  class Landing {
    const tools: seq<Tool>
    var searchTerm: string
    var activeCategory: string
    var signature: Option<string>
    var isSigning: bool
    var modalVisible: bool

    constructor(tools: seq<Tool>)
      ensures this.tools == tools && searchTerm == "" && activeCategory == "All"
      ensures signature == None && !isSigning && !modalVisible
    {
      this.tools := tools;
      searchTerm := "";
      activeCategory := "All";
      signature := None;
      isSigning := false;
      modalVisible := false;
    }

    /** The tools on show. */
    function Visible(): seq<Tool>
      reads this
    {
      FilteredTools(tools, searchTerm, activeCategory)
    }

    /** `handleCategoryChange`: the chosen category becomes active; choosing it again changes nothing. */
    method HandleCategoryChange(category: string)
      modifies this`activeCategory
      ensures activeCategory == category && searchTerm == old(searchTerm)
      ensures signature == old(signature) && isSigning == old(isSigning) && modalVisible == old(modalVisible)
      ensures category == old(activeCategory) ==> unchanged(this)
    {
      if category == activeCategory {
        return;
      }
      activeCategory := category;
    }

    /**
     * `handleConnectWallet`; `navigate` says whether the page moves to the chat.  Without a
     * wallet the connection dialog opens; with a wallet and a signature the page moves on;
     * with a wallet and no signature a stored signature for the same key is taken over,
     * otherwise signing is requested.
     */
    method HandleConnectWallet(connected: bool, publicKey: Option<string>, storage: map<string, string>)
      returns (navigate: bool)
      modifies this`signature, this`isSigning, this`modalVisible
      ensures !connected ==>
        isSigning && modalVisible && signature == old(signature) && !navigate
      ensures connected && publicKey.Some? && Truthy(old(signature)) ==>
        navigate && signature == old(signature) && isSigning == old(isSigning) && modalVisible == old(modalVisible)
      ensures connected && publicKey.Some? && !Truthy(old(signature)) && StoredFor(storage, publicKey.value) ==>
        navigate && signature == GetItem(storage, "walletSignature")
        && isSigning == old(isSigning) && modalVisible == old(modalVisible)
      ensures connected && publicKey.Some? && !Truthy(old(signature)) && !StoredFor(storage, publicKey.value) ==>
        !navigate && isSigning && signature == old(signature) && modalVisible == old(modalVisible)
      ensures connected && publicKey.None? ==>
        !navigate && signature == old(signature) && isSigning == old(isSigning) && modalVisible == old(modalVisible)
      ensures navigate ==> connected && Truthy(signature)
      ensures searchTerm == old(searchTerm) && activeCategory == old(activeCategory)
    {
      navigate := false;
      if !connected {
        isSigning := true;
        modalVisible := true;
      } else if publicKey.Some? {
        if !Truthy(signature) {
          var storedSignature := GetItem(storage, "walletSignature");
          if Truthy(storedSignature) && GetItem(storage, "walletPublicKey") == Some(publicKey.value) {
            signature := storedSignature;
            navigate := true;
          } else {
            isSigning := true;
          }
        } else {
          navigate := true;
        }
      }
    }
  }
}
