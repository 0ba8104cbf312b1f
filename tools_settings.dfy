/**
 * The tools-and-settings dialog: the model catalogue, tool selection with the free-tier
 * cap, model and Lumo-mode switching, expandable descriptions, and the grouping and
 * search filtering of the tool list.
 */
module ToolsSettings {
  import opened Wrappers
  import opened JsStrings

  // ------------------------------------------------------------------
  // Models
  // ------------------------------------------------------------------

  datatype Model = Model(id: string, name: string, pro: bool)

  const AvailableModels: seq<Model> := [
    Model("gpt-4.1-mini", "GPT-4.1 Mini", false),
    Model("gpt-4.1", "GPT-4.1", true),
    Model("gpt-4o", "GPT 4o", true),
    Model("anthropic/claude-3.7-sonnet", "Claude 3.7 Sonnet", true),
    Model("google/gemini-2.5-pro-preview", "Gemini 2.5 Pro Preview", true),
    Model("meta-llama/llama-4-maverick", "Llama 4 Maverick", true)
  ]

  const LumoModels: seq<Model> := [
    Model("lumo-70b", "Lumo-70B-Instruct", false),
    Model("lumo-8b", "Lumo-8B-Instruct", false),
    Model("lumo-deepseek-8b", "Lumo-DeepSeek-R1-8B", false)
  ]

  /** Total tools a free user may have selected, default tools included. */
  const MaxFreeTools: nat := 3

  /** `models.find(m => m.id === id)`. */
  function FindModel(models: seq<Model>, id: string): (r: Option<Model>)
    ensures r.Some? ==> r.value in models && r.value.id == id
    ensures r.None? <==> forall m :: m in models ==> m.id != id
  {
    if models == [] then None
    else if models[0].id == id then Some(models[0])
    else FindModel(models[1..], id)
  }

  /** `isLumoModel`. */
  function IsLumoModel(id: string): bool {
    exists m :: m in LumoModels && m.id == id
  }

  /** The Lumo models are exactly the three fine-tuned ones. */
  lemma IsLumoModelIff(id: string)
    ensures IsLumoModel(id) <==> id in {"lumo-70b", "lumo-8b", "lumo-deepseek-8b"}
  {
    if id in {"lumo-70b", "lumo-8b", "lumo-deepseek-8b"} {
      if id == "lumo-70b" { assert LumoModels[0] in LumoModels; }
      else if id == "lumo-8b" { assert LumoModels[1] in LumoModels; }
      else { assert LumoModels[2] in LumoModels; }
    }
  }

  /** `models.find(model => !model.pro || isProUser)`. */
  function FirstAvailable(models: seq<Model>, isProUser: bool): (r: Option<Model>)
    ensures r.Some? ==> r.value in models && (!r.value.pro || isProUser)
    ensures r.None? <==> forall m :: m in models ==> m.pro && !isProUser
  {
    if models == [] then None
    else if !models[0].pro || isProUser then Some(models[0])
    else FirstAvailable(models[1..], isProUser)
  }

  /** Both catalogues open with a free model, so a mode switch always finds one. */
  lemma FirstAvailableIsFirst(isProUser: bool)
    ensures FirstAvailable(LumoModels, isProUser) == Some(LumoModels[0])
    ensures FirstAvailable(AvailableModels, isProUser) == Some(AvailableModels[0])
  {
  }

  /** `getSelectedModelDetails`: the Lumo list first, then the standard list, else the first standard model. */
  function SelectedModelDetails(selected: string): (r: Model)
    ensures r in LumoModels || r in AvailableModels
    ensures (IsLumoModel(selected) || exists m :: m in AvailableModels && m.id == selected) ==> r.id == selected
    ensures !IsLumoModel(selected) && (forall m :: m in AvailableModels ==> m.id != selected) ==> r == AvailableModels[0]
  {
    match FindModel(LumoModels, selected)
    case Some(m) => m
    case None =>
      match FindModel(AvailableModels, selected)
      case Some(m) => m
      case None => AvailableModels[0]
  }

  // ------------------------------------------------------------------
  // Lists of ids
  // ------------------------------------------------------------------

  /** `ids.filter(id => id !== x)`. */
  function Remove(ids: seq<string>, x: string): (r: seq<string>)
    ensures multiset(r) == multiset(ids)[x := 0]
    ensures |r| <= |ids|
  {
    if ids == [] then []
    else
      assert ids == [ids[0]] + ids[1..];
      (if ids[0] == x then [] else [ids[0]]) + Remove(ids[1..], x)
  }

  /** Removing keeps the other ids in their order. */
  lemma {:induction false} RemoveAppend(a: seq<string>, b: seq<string>, x: string)
    ensures Remove(a + b, x) == Remove(a, x) + Remove(b, x)
  {
    if a != [] {
      var head := if a[0] == x then [] else [a[0]];
      FrontOfJoin(a, b);
      RemoveAppend(a[1..], b, x);
      assert Remove(a + b, x) == head + (Remove(a[1..], x) + Remove(b, x));
      assert Remove(a, x) == head + Remove(a[1..], x);
      JoinAssoc(head, Remove(a[1..], x), Remove(b, x));
    } else {
      assert a + b == b;
    }
  }

  lemma FrontOfJoin(a: seq<string>, b: seq<string>)
    requires a != []
    ensures (a + b)[0] == a[0] && (a + b)[1..] == a[1..] + b
  {
  }

  lemma JoinAssoc(a: seq<string>, b: seq<string>, c: seq<string>)
    ensures a + (b + c) == (a + b) + c
  {
  }

  /** Removing an absent id changes nothing. */
  lemma {:induction false} RemoveAbsent(ids: seq<string>, x: string)
    requires x !in ids
    ensures Remove(ids, x) == ids
  {
    if ids != [] {
      RemoveAbsent(ids[1..], x);
    }
  }

  /** Appending an absent id and removing it again restores the list. */
  lemma AddThenRemove(ids: seq<string>, x: string)
    requires x !in ids
    ensures Remove(ids + [x], x) == ids
  {
    RemoveAppend(ids, [x], x);
    RemoveAbsent(ids, x);
  }

  predicate Distinct(ids: seq<string>) {
    forall i, j :: 0 <= i < j < |ids| ==> ids[i] != ids[j]
  }

  /** Removal never introduces a duplicate. */
  lemma RemoveDistinct(ids: seq<string>, x: string)
    requires Distinct(ids)
    ensures Distinct(Remove(ids, x))
  {
    var r := Remove(ids, x);
    forall i, j | 0 <= i < j < |r| ensures r[i] != r[j] {
      if r[i] == r[j] {
        MultisetTwice(r, i, j);
        assert multiset(ids)[r[i]] >= 2;
        MultisetDistinct(ids, r[i]);
      }
    }
  }

  lemma MultisetTwice(r: seq<string>, i: nat, j: nat)
    requires i < j < |r| && r[i] == r[j]
    ensures multiset(r)[r[i]] >= 2
  {
    assert r == r[..i] + [r[i]] + r[i + 1..j] + [r[j]] + r[j + 1..];
  }

  lemma {:induction false} MultisetDistinct(ids: seq<string>, y: string)
    requires Distinct(ids)
    ensures multiset(ids)[y] <= 1
  {
    if ids != [] {
      assert ids == [ids[0]] + ids[1..];
      assert Distinct(ids[1..]) by {
        forall i, j | 0 <= i < j < |ids[1..]| ensures ids[1..][i] != ids[1..][j] {
          assert ids[1..][i] == ids[i + 1] && ids[1..][j] == ids[j + 1];
        }
      }
      MultisetDistinct(ids[1..], y);
      if ids[0] == y {
        assert y !in ids[1..] by {
          forall k | 0 <= k < |ids[1..]| ensures ids[1..][k] != y {
            assert ids[1..][k] == ids[k + 1];
          }
        }
      }
    }
  }

  // ------------------------------------------------------------------
  // Tools, grouping and search
  // ------------------------------------------------------------------

  datatype Tool = Tool(identifier: string, name: string, category: string, description: string, defaultStatus: bool)

  /** One entry of the object the grouping `reduce` builds; keys keep insertion order. */
  datatype Group = Group(category: string, tools: seq<Tool>)

  /** The position of the group for `category`, if it exists yet. */
  function GroupIndex(groups: seq<Group>, category: string): (r: Option<nat>)
    ensures r.Some? ==> r.value < |groups| && groups[r.value].category == category
    ensures r.None? ==> forall k :: 0 <= k < |groups| ==> groups[k].category != category
  {
    if groups == [] then None
    else if groups[|groups| - 1].category == category then Some(|groups| - 1)
    else GroupIndex(groups[..|groups| - 1], category)
  }

  /** One step of the reduce: create the group if missing, then push the tool into it. */
  function AddToGroup(groups: seq<Group>, t: Tool): seq<Group> {
    match GroupIndex(groups, t.category)
    case None => groups + [Group(t.category, [t])]
    case Some(k) => groups[k := Group(t.category, groups[k].tools + [t])]
  }

  /** The grouping of `tools`, folding from the left. */
  function Grouped(tools: seq<Tool>): seq<Group> {
    if tools == [] then [] else AddToGroup(Grouped(tools[..|tools| - 1]), tools[|tools| - 1])
  }

  /** The grouping `reduce` over the tool data. */
  method GroupByCategory(tools: seq<Tool>) returns (groups: seq<Group>)
    ensures groups == Grouped(tools)
  {
    groups := [];
    for n := 0 to |tools|
      invariant groups == Grouped(tools[..n])
    {
      assert tools[..n + 1][..n] == tools[..n];
      ghost var before := groups;
      var t := tools[n];
      var k := GroupIndex(groups, t.category);
      if k.None? {
        groups := groups + [Group(t.category, [])];
        k := Some(|groups| - 1);
      }
      groups := groups[k.value := Group(t.category, groups[k.value].tools + [t])];
      if GroupIndex(before, t.category).None? {
        assert [] + [t] == [t];
        assert groups == before + [Group(t.category, [t])];
      }
    }
    assert tools[..|tools|] == tools;
  }

  /** The tools of one category, in data order: the reference reading of a group. */
  function InCategory(tools: seq<Tool>, category: string): (r: seq<Tool>)
    ensures forall t :: t in r <==> t in tools && t.category == category
    ensures (forall t :: t in tools ==> t.category != category) ==> r == []
  {
    if tools == [] then []
    else
      var last := tools[|tools| - 1];
      InCategory(tools[..|tools| - 1], category) + (if last.category == category then [last] else [])
  }

  lemma InCategorySnoc(init: seq<Tool>, t: Tool, c: string)
    ensures InCategory(init + [t], c) == InCategory(init, c) + (if t.category == c then [t] else [])
  {
    assert (init + [t])[..|init|] == init;
  }

  predicate DistinctCategories(groups: seq<Group>) {
    forall i, j :: 0 <= i < j < |groups| ==> groups[i].category != groups[j].category
  }

  /** Each group holds exactly the tools of its category, in data order. */
  predicate GroupsHold(groups: seq<Group>, tools: seq<Tool>) {
    forall k :: 0 <= k < |groups| ==> groups[k].tools == InCategory(tools, groups[k].category)
  }

  predicate HasGroup(groups: seq<Group>, category: string) {
    exists k :: 0 <= k < |groups| && groups[k].category == category
  }

  /** Every tool has the group of its category. */
  predicate GroupsCover(groups: seq<Group>, tools: seq<Tool>) {
    forall t :: t in tools ==> HasGroup(groups, t.category)
  }

  /** What the grouping promises. */
  predicate GroupsAgree(groups: seq<Group>, tools: seq<Tool>) {
    DistinctCategories(groups) && GroupsHold(groups, tools) && GroupsCover(groups, tools)
  }

  /**
   * Every tool lands in the one group of its category, the groups are distinct, and each
   * group holds exactly the tools of its category in their original order.
   */
  lemma {:induction false} GroupedSpec(tools: seq<Tool>)
    ensures GroupsAgree(Grouped(tools), tools)
  {
    if tools != [] {
      var init, t := tools[..|tools| - 1], tools[|tools| - 1];
      GroupedSpec(init);
      assert tools == init + [t];
      AddToGroupDistinct(Grouped(init), t);
      AddToGroupHolds(Grouped(init), init, t);
      AddToGroupCovers(Grouped(init), init, t);
    }
  }

  lemma AddToGroupDistinct(groups: seq<Group>, t: Tool)
    requires DistinctCategories(groups)
    ensures DistinctCategories(AddToGroup(groups, t))
  {
  }

  lemma AddToGroupHolds(groups: seq<Group>, init: seq<Tool>, t: Tool)
    requires DistinctCategories(groups) && GroupsHold(groups, init) && GroupsCover(groups, init)
    ensures GroupsHold(AddToGroup(groups, t), init + [t])
  {
    var after := AddToGroup(groups, t);
    forall k | 0 <= k < |after| ensures after[k].tools == InCategory(init + [t], after[k].category) {
      InCategorySnoc(init, t, after[k].category);
      if GroupIndex(groups, t.category).None? && k == |groups| {
        NoGroupNoTools(groups, init, t.category);
      }
    }
  }

  lemma NoGroupNoTools(groups: seq<Group>, init: seq<Tool>, c: string)
    requires GroupsCover(groups, init) && !HasGroup(groups, c)
    ensures InCategory(init, c) == []
  {
    assert forall u :: u in init ==> u.category != c;
  }

  lemma AddToGroupCovers(groups: seq<Group>, init: seq<Tool>, t: Tool)
    requires GroupsCover(groups, init)
    ensures GroupsCover(AddToGroup(groups, t), init + [t])
  {
    var after := AddToGroup(groups, t);
    forall u | u in init + [t] ensures HasGroup(after, u.category) {
      if u == t {
        match GroupIndex(groups, t.category)
        case None => assert after[|groups|].category == u.category;
        case Some(i) => assert after[i].category == u.category;
      } else {
        var k :| 0 <= k < |groups| && groups[k].category == u.category;
        assert after[k].category == u.category;
      }
    }
  }

  /** Does `tool` match the search term (name, description or category, ignoring case)? */
  predicate MatchesSearch(tool: Tool, term: string) {
    var q := ToLower(term);
    Includes(ToLower(tool.name), q) || Includes(ToLower(tool.description), q) || Includes(ToLower(tool.category), q)
  }

  /** `toolsData.filter(...)` with the search predicate. */
  function KeepMatching(tools: seq<Tool>, term: string): (r: seq<Tool>)
    ensures forall t :: t in r <==> t in tools && MatchesSearch(t, term)
  {
    if tools == [] then []
    else
      var last := tools[|tools| - 1];
      KeepMatching(tools[..|tools| - 1], term) + (if MatchesSearch(last, term) then [last] else [])
  }

  /** `getFilteredTools`: the stored grouping for an empty term, else the grouping of the matches. */
  function FilteredTools(term: string, tools: seq<Tool>, grouped: seq<Group>): seq<Group> {
    if term == "" then grouped else Grouped(KeepMatching(tools, term))
  }

  /**
   * With a search term, every matching tool is shown in its category's group and no other
   * tool is shown.
   */
  lemma FilteredToolsSpec(term: string, tools: seq<Tool>, grouped: seq<Group>)
    requires term != ""
    ensures var groups := FilteredTools(term, tools, grouped);
      && GroupsAgree(groups, KeepMatching(tools, term))
      && forall k, t :: 0 <= k < |groups| && t in groups[k].tools <==>
           0 <= k < |groups| && t in tools && MatchesSearch(t, term) && t.category == groups[k].category
  {
    GroupedSpec(KeepMatching(tools, term));
  }

  /** An empty term leaves the stored grouping as it is. */
  lemma EmptySearchUnfiltered(tools: seq<Tool>, grouped: seq<Group>)
    ensures FilteredTools("", tools, grouped) == grouped
  {
  }

  // ------------------------------------------------------------------
  // The dialog's state
  // ------------------------------------------------------------------

  class Settings {
    const isProUser: bool
    var selectedTools: seq<string>
    var showLimitWarning: bool
    var isLumoMode: bool
    var selectedModel: string
    var expandedDescriptions: seq<string>
    var groupedTools: seq<Group>
    var activeCategory: Option<string>

    constructor(isProUser: bool, selectedTools: seq<string>, selectedModel: string)
      ensures this.isProUser == isProUser && this.selectedTools == selectedTools
      ensures this.selectedModel == selectedModel
      ensures !showLimitWarning && !isLumoMode && expandedDescriptions == [] && groupedTools == []
      ensures activeCategory == None
    {
      this.isProUser := isProUser;
      this.selectedTools := selectedTools;
      this.selectedModel := selectedModel;
      showLimitWarning := false;
      isLumoMode := false;
      expandedDescriptions := [];
      groupedTools := [];
      activeCategory := None;
    }

    /** `toggleTool`; the new list is what `onToolsChange` hands back to the page. */
    method ToggleTool(toolId: string, isDefault: bool)
      modifies this`selectedTools, this`showLimitWarning
      ensures isDefault ==> selectedTools == old(selectedTools) && showLimitWarning == old(showLimitWarning)
      ensures !isDefault && toolId in old(selectedTools) ==>
        selectedTools == Remove(old(selectedTools), toolId) && !showLimitWarning
      ensures !isDefault && toolId !in old(selectedTools) && (isProUser || |old(selectedTools)| < MaxFreeTools) ==>
        selectedTools == old(selectedTools) + [toolId] && !showLimitWarning
      ensures !isDefault && toolId !in old(selectedTools) && !isProUser && |old(selectedTools)| >= MaxFreeTools ==>
        selectedTools == old(selectedTools) && showLimitWarning
      ensures !isProUser && |old(selectedTools)| <= MaxFreeTools ==> |selectedTools| <= MaxFreeTools
      ensures Distinct(old(selectedTools)) ==> Distinct(selectedTools)
    {
      if isDefault {
        return;
      }
      if !isProUser {
        if toolId in selectedTools {
          if Distinct(selectedTools) { RemoveDistinct(selectedTools, toolId); }
          selectedTools := Remove(selectedTools, toolId);
          showLimitWarning := false;
          return;
        }
        if |selectedTools| >= MaxFreeTools {
          showLimitWarning := true;
          return;
        }
      }
      if toolId !in selectedTools {
        selectedTools := selectedTools + [toolId];
      } else {
        if Distinct(selectedTools) { RemoveDistinct(selectedTools, toolId); }
        selectedTools := Remove(selectedTools, toolId);
      }
      showLimitWarning := false;
    }

    /** `handleModelChange`: a pro model is refused to a free user. */
    method HandleModelChange(modelId: string)
      modifies this`selectedModel, this`isLumoMode
      ensures var data := if IsLumoModel(modelId) then FindModel(LumoModels, modelId)
                          else FindModel(AvailableModels, modelId);
        if !isProUser && data.Some? && data.value.pro then
          selectedModel == old(selectedModel) && isLumoMode == old(isLumoMode)
        else
          selectedModel == modelId && isLumoMode == IsLumoModel(modelId)
    {
      var isLumo := IsLumoModel(modelId);
      var modelData := if isLumo then FindModel(LumoModels, modelId) else FindModel(AvailableModels, modelId);
      if !isProUser && modelData.Some? && modelData.value.pro {
        return;
      }
      selectedModel := modelId;
      isLumoMode := isLumo;
    }

    /** The effect that keeps the mode in line with the selected model. */
    method SyncLumoMode()
      modifies this`isLumoMode
      ensures isLumoMode == IsLumoModel(selectedModel)
    {
      var currentModelIsLumo := IsLumoModel(selectedModel);
      if currentModelIsLumo != isLumoMode {
        isLumoMode := currentModelIsLumo;
      }
    }

    /** `handleLumoModeToggle`: flip the mode and take the first model the user may use. */
    method HandleLumoModeToggle()
      modifies this`isLumoMode, this`selectedModel
      ensures isLumoMode == !old(isLumoMode)
      ensures var pick := FirstAvailable(if isLumoMode then LumoModels else AvailableModels, isProUser);
        selectedModel == if pick.Some? then pick.value.id else old(selectedModel)
      ensures selectedModel == if isLumoMode then "lumo-70b" else "gpt-4.1-mini"
      ensures isLumoMode == IsLumoModel(selectedModel)
    {
      FirstAvailableIsFirst(isProUser);
      var newLumoMode := !isLumoMode;
      isLumoMode := newLumoMode;
      var pick := FirstAvailable(if newLumoMode then LumoModels else AvailableModels, isProUser);
      if pick.Some? {
        selectedModel := pick.value.id;
      }
      IsLumoModelIff(selectedModel);
    }

    /** `toggleDescription`. */
    method ToggleDescription(toolId: string)
      modifies this`expandedDescriptions
      ensures expandedDescriptions == if toolId in old(expandedDescriptions)
        then Remove(old(expandedDescriptions), toolId) else old(expandedDescriptions) + [toolId]
      ensures toolId in expandedDescriptions <==> toolId !in old(expandedDescriptions)
    {
      if toolId in expandedDescriptions {
        expandedDescriptions := Remove(expandedDescriptions, toolId);
        assert toolId !in multiset(expandedDescriptions);
      } else {
        expandedDescriptions := expandedDescriptions + [toolId];
      }
    }

    /** The grouping effect: regroup and open the first category when none is active. */
    method RefreshGroups(tools: seq<Tool>)
      modifies this`groupedTools, this`activeCategory
      ensures groupedTools == Grouped(tools)
      ensures activeCategory == if (old(activeCategory).None? || old(activeCategory) == Some("")) && |groupedTools| > 0
        then Some(groupedTools[0].category) else old(activeCategory)
    {
      var grouped := GroupByCategory(tools);
      groupedTools := grouped;
      if (activeCategory.None? || activeCategory == Some("")) && |grouped| > 0 {
        activeCategory := Some(grouped[0].category);
      }
    }
  }

  /** Opening and closing a description that was closed restores the list. */
  lemma ToggleDescriptionTwice(expanded: seq<string>, toolId: string)
    requires toolId !in expanded
    ensures Remove(expanded + [toolId], toolId) == expanded
  {
    AddThenRemove(expanded, toolId);
  }
}
