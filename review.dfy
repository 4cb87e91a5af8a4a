/** The review server of the `modules` package. It shows one group folder at
    a time; the reviewer's selection, Finished clicks, auto-finish flag and
    preferred folder live in the folder's state file. Folder preferences and
    the auto-finish choice are remembered across groups, and a review is
    confirmed by the second Finished click. Requests are the methods of
    `ReviewServer`; the folder's listing and manifest text are passed in. */
module Review {
  import opened Wrappers
  import opened Text
  import opened Paths
  import opened Order
  import opened Modes
  import opened Manifest
  import opened ReviewFolder

  const StateName: string := "_review_state.json"
  const GroupMetaName: string := "_group_meta.json"

  /** The lower-cased names the item listing skips. */
  const Hidden: set<string> := {ManifestName, StateName, GroupMetaName, PreviewName}

  const NoActiveGroup: string := "No active group"
  const NotInGroup: string := "File not in group"
  const ExactOnly: string := "Auto-finish is only available in exact mode."

  /** A group folder as one request sees it: its entries and the text of
      its manifest, if it has one. */
  datatype Folder = Folder(listing: Listing, manifest: Option<string>)

  /** The state file's content. A key missing from the file reads as its
      default, so a file lacking keys is the state holding the defaults. */
  datatype State = State(keep: seq<string>, clicks: int, autoFinish: bool, preferred: Option<string>)

  /** The state `set_group` writes for a folder without one, and the
      defaults every other reader falls back to. */
  const Fresh: State := State([], 0, false, None)

  /** How a request ends: answered, refused with an HTTP status, or by the
      `ValueError` of a manifest line without a tab. */
  datatype Outcome = Ok | Failed(status: int, error: string) | Raised

  /** One listed file and the folder its original lived in. */
  datatype Item = Item(name: string, folderName: string, folderPath: string)

  /** The item of a shown file: the parent of its recorded original, or the
      "unknown" folder with an empty path when the manifest records no
      (or an empty) original for it. */
  function ItemOf(name: string, nm: Mapping): (r: Item)
    ensures r.name == name
    ensures r.folderPath == "" <==> Get(nm, name).None? || Get(nm, name) == Some("")
    ensures r.folderPath != "" ==> r.folderPath == Parent(Get(nm, name).value) && r.folderName == Name(r.folderPath)
    ensures r.folderPath == "" ==> r.folderName == "unknown"
  {
    match Get(nm, name)
    case Some(original) =>
      if original != "" then Item(name, Name(Parent(original)), Parent(original))
      else Item(name, "unknown", "")
    case None => Item(name, "unknown", "")
  }

  function NamesOf(items: seq<Item>): (r: seq<string>)
    ensures |r| == |items| && forall i :: 0 <= i < |items| ==> r[i] == items[i].name
  {
    seq(|items|, i requires 0 <= i < |items| => items[i].name)
  }

  /** The folder paths of the shown files. */
  function FoldersHere(shown: set<string>, nm: Mapping): (r: set<string>)
    ensures forall fp :: fp in r <==> exists n :: n in shown && ItemOf(n, nm).folderPath == fp
  {
    set n | n in shown :: ItemOf(n, nm).folderPath
  }

  /** The shown files whose original lived in folder fp. */
  function InFolder(shown: set<string>, nm: Mapping, fp: string): (r: set<string>)
    ensures forall n :: n in r <==> n in shown && ItemOf(n, nm).folderPath == fp
  {
    set n | n in shown && ItemOf(n, nm).folderPath == fp
  }

  /** `_list_items_locked`'s result: the shown files in name order, each
      with the folder the manifest gives it. */
  ghost predicate ItemsListed(items: seq<Item>, shown: set<string>, nm: Mapping)
  {
    SortedSet(NamesOf(items), shown)
    && forall i :: 0 <= i < |items| ==> items[i] == ItemOf(items[i].name, nm)
  }

  /** Index of the first entry of the preference order that is one of the
      folders; |order| when there is none. */
  function FirstIn(order: seq<string>, folders: set<string>): (r: nat)
    ensures r <= |order|
    ensures forall j :: 0 <= j < r ==> order[j] !in folders
    ensures r < |order| ==> order[r] in folders
  {
    if order == [] then 0
    else if order[0] in folders then 0
    else 1 + FirstIn(order[1..], folders)
  }

  /** The `folder_in_group` of `_apply_global_folder_preference_locked`:
      the most recently preferred folder that some shown file comes from. */
  function RememberedFolder(order: seq<string>, shown: set<string>, nm: Mapping): (r: Option<string>)
    ensures var k := FirstIn(order, FoldersHere(shown, nm));
      r.Some? ==> r.value != "" && k < |order| && r.value == order[k]
    ensures "" !in order ==> (r.None? <==> forall j :: 0 <= j < |order| ==> order[j] !in FoldersHere(shown, nm))
  {
    if shown == {} || order == [] then None
    else
      var k := FirstIn(order, FoldersHere(shown, nm));
      if k < |order| && order[k] != "" then Some(order[k]) else None
  }

  /** The preference order after folder fp is preferred: fp first, then
      the others in their previous order. */
  function MoveToFront(order: seq<string>, fp: string): (r: seq<string>)
    ensures |r| >= 1 && r[0] == fp && fp !in r[1..]
    ensures forall x :: x in r <==> x == fp || x in order
    ensures NoDup(order) ==> NoDup(r)
  {
    var other := (x: string) => x != fp;
    var others := Filter(order, other);
    FilterMembersAll(order, other);
    FilterNoDup(order, other);
    assert ([fp] + others)[1..] == others;
    [fp] + others
  }

  lemma FilterMembersAll(s: seq<string>, p: string -> bool)
    ensures forall x :: x in Filter(s, p) <==> x in s && p(x)
  {
    forall x {
      FilterMembers(s, p, x);
    }
  }

  lemma {:induction false} FilterNoDup(s: seq<string>, p: string -> bool)
    ensures NoDup(s) ==> NoDup(Filter(s, p))
  {
    if s != [] && NoDup(s) {
      var init := s[..|s| - 1];
      var last := s[|s| - 1];
      assert NoDup(init);
      FilterNoDup(init, p);
      FilterMembers(init, p, last);
      assert last !in init;
    }
  }

  /** `_read_manifest_locked` as the loop it is: moved file name to
      original path, later lines winning; `None` is the `ValueError` of a
      non-blank line without a tab. */
  method ReadManifestByName(content: Option<string>) returns (r: Option<Mapping>)
    ensures r == ParseManifestByName(content)
  {
    if content.None? {
      return Some([]);
    }
    var lines := SplitLines(content.value);
    var mapping: Mapping := [];
    var i := 0;
    while i < |lines|
      invariant i <= |lines|
      invariant ParseLinesByName(lines[..i]) == Some(mapping)
    {
      var line := lines[i];
      assert lines[..i + 1][..i] == lines[..i];
      if !IsBlank(line) {
        var p := ParseLine(line);
        if p.None? {
          ParseLinesByNameFails(lines);
          return None;
        }
        mapping := Put(mapping, Name(p.value.0), p.value.1);
      }
      i := i + 1;
    }
    assert lines[..i] == lines;
    r := Some(mapping);
  }

  /** `_list_items_locked`: fails like the manifest reader, and otherwise
      lists exactly the shown files in name order with their folders. */
  method ListItems(folder: Folder) returns (items: Option<seq<Item>>)
    ensures items.None? <==> ParseManifestByName(folder.manifest).None?
    ensures items.Some? ==> ItemsListed(items.value, ShownNames(folder.listing, Hidden), ParseManifestByName(folder.manifest).value)
  {
    var nm := ReadManifestByName(folder.manifest);
    if nm.None? {
      return None;
    }
    var names := SortedOf(ShownNames(folder.listing, Hidden));
    var out: seq<Item> := [];
    var i := 0;
    while i < |names|
      invariant i <= |names|
      invariant |out| == i && forall k :: 0 <= k < i ==> out[k] == ItemOf(names[k], nm.value)
    {
      out := out + [ItemOf(names[i], nm.value)];
      i := i + 1;
    }
    assert NamesOf(out) == names;
    items := Some(out);
  }

  /** Every shown file is listed, and every listed item is a shown file. */
  lemma ItemsShown(items: seq<Item>, shown: set<string>, nm: Mapping)
    requires ItemsListed(items, shown, nm)
    ensures forall n :: n in shown ==> exists i :: 0 <= i < |items| && items[i].name == n
    ensures forall i :: 0 <= i < |items| ==> items[i].name in shown
  {
    var names := NamesOf(items);
    forall n | n in shown ensures exists i :: 0 <= i < |items| && items[i].name == n {
      assert n in names;
      var i :| 0 <= i < |names| && names[i] == n;
      assert items[i].name == n;
    }
    forall i | 0 <= i < |items| ensures items[i].name in shown {
      assert names[i] == items[i].name;
    }
  }

  /** The folders of the listed items are the folders of the shown files. */
  lemma ItemsFoldersHere(items: seq<Item>, shown: set<string>, nm: Mapping)
    requires ItemsListed(items, shown, nm)
    ensures (set i | 0 <= i < |items| :: items[i].folderPath) == FoldersHere(shown, nm)
  {
    ItemsShown(items, shown, nm);
  }

  /** The names listed under folder fp are the shown files from it. */
  lemma ItemsInFolder(items: seq<Item>, shown: set<string>, nm: Mapping, fp: string)
    requires ItemsListed(items, shown, nm)
    ensures (set i | 0 <= i < |items| && items[i].folderPath == fp :: items[i].name) == InFolder(shown, nm, fp)
  {
    ItemsShown(items, shown, nm);
  }

  /** The remembered folder as the listed items give it. */
  lemma RememberedFromItems(items: seq<Item>, shown: set<string>, nm: Mapping, order: seq<string>)
    requires ItemsListed(items, shown, nm)
    ensures RememberedFolder(order, shown, nm)
         == if items == [] || order == [] then None
            else
              var k := FirstIn(order, set i | 0 <= i < |items| :: items[i].folderPath);
              if k < |order| && order[k] != "" then Some(order[k]) else None
  {
    ItemsFoldersHere(items, shown, nm);
    if items == [] {
      assert NamesOf(items) == [];
      assert shown == {};
    } else {
      assert items[0].name in NamesOf(items);
    }
  }

  /** The `folder_in_group` search over the listed items. */
  method FolderInGroup(items: seq<Item>, order: seq<string>, ghost shown: set<string>, ghost nm: Mapping)
    returns (target: Option<string>)
    requires ItemsListed(items, shown, nm)
    ensures target == RememberedFolder(order, shown, nm)
  {
    RememberedFromItems(items, shown, nm, order);
    if items == [] || order == [] {
      return None;
    }
    var foldersHere := set i | 0 <= i < |items| :: items[i].folderPath;
    var k := FirstIn(order, foldersHere);
    if k == |order| || order[k] == "" {
      return None;
    }
    target := Some(order[k]);
  }

  /** `sorted(set(...))` of the listed names whose folder path is fp. */
  method KeepFromFolder(items: seq<Item>, fp: string, ghost shown: set<string>, ghost nm: Mapping)
    returns (keep: seq<string>)
    requires ItemsListed(items, shown, nm)
    ensures SortedSet(keep, InFolder(shown, nm, fp))
  {
    var keepNames := set i | 0 <= i < |items| && items[i].folderPath == fp :: items[i].name;
    ItemsInFolder(items, shown, nm, fp);
    keep := SortedOf(keepNames);
  }

  /** The state files with a fresh state for dir if it has none. */
  function Initialized(states: map<Path, State>, dir: Path): (r: map<Path, State>)
    ensures dir in r && r[dir] == (if dir in states then states[dir] else Fresh)
    ensures forall d :: d != dir ==> (d in r <==> d in states)
    ensures forall d :: d != dir && d in states ==> r[d] == states[d]
  {
    states[dir := if dir in states then states[dir] else Fresh]
  }

  /** The state files after applying the remembered preference to group gd
      whose state read as base: unchanged when no remembered folder supplies
      a shown file, and otherwise only gd's state changed, to select
      exactly the shown files of the most recently preferred such folder
      and to record it as preferred. */
  ghost predicate PreferenceApplied(after: map<Path, State>, before: map<Path, State>, gd: Path, base: State,
                                    order: seq<string>, shown: set<string>, nm: Mapping)
  {
    var target := RememberedFolder(order, shown, nm);
    (target.None? ==> after == before)
    && (target.Some? ==>
          gd in after
          && after == before[gd := base.(keep := after[gd].keep, preferred := target)]
          && SortedSet(after[gd].keep, InFolder(shown, nm, target.value)))
  }

  /** The state files once group dir is set up from the initial ones: only
      dir's state differs; its Finished count is kept, its auto-finish is
      auto, and its selection and preferred folder are those the
      remembered preference gives, or the initial ones when it gives none. */
  ghost predicate GroupReady(after: map<Path, State>, initial: map<Path, State>, dir: Path, auto: bool,
                             order: seq<string>, shown: set<string>, nm: Mapping)
  {
    var target := RememberedFolder(order, shown, nm);
    dir in after && dir in initial
    && after == initial[dir := after[dir]]
    && after[dir].clicks == initial[dir].clicks
    && after[dir].autoFinish == auto
    && (target.None? ==> after[dir].keep == initial[dir].keep && after[dir].preferred == initial[dir].preferred)
    && (target.Some? ==> SortedSet(after[dir].keep, InFolder(shown, nm, target.value)) && after[dir].preferred == target)
  }

  lemma AppliedNothing(states: map<Path, State>, gd: Path, base: State, order: seq<string>, shown: set<string>, nm: Mapping)
    requires RememberedFolder(order, shown, nm).None?
    ensures PreferenceApplied(states, states, gd, base, order, shown, nm)
  {
  }

  lemma AppliedFolder(after: map<Path, State>, before: map<Path, State>, gd: Path, base: State,
                      order: seq<string>, shown: set<string>, nm: Mapping, fp: string, keep: seq<string>)
    requires RememberedFolder(order, shown, nm) == Some(fp)
    requires SortedSet(keep, InFolder(shown, nm, fp))
    requires after == before[gd := base.(keep := keep, preferred := Some(fp))]
    ensures PreferenceApplied(after, before, gd, base, order, shown, nm)
  {
  }

  lemma ReadyAfterApplied(after: map<Path, State>, mid: map<Path, State>, initial: map<Path, State>, dir: Path, auto: bool,
                          order: seq<string>, shown: set<string>, nm: Mapping)
    requires dir in initial
    requires PreferenceApplied(mid, initial, dir, initial[dir], order, shown, nm)
    requires dir in mid && after == mid[dir := mid[dir].(autoFinish := auto)]
    ensures GroupReady(after, initial, dir, auto, order, shown, nm)
  {
    var target := RememberedFolder(order, shown, nm);
    if target.None? {
      ReadyWithout(after, initial, dir, auto, order, shown, nm);
    } else {
      ReadyWith(after, mid, initial, dir, auto, order, shown, nm, target.value);
    }
  }

  lemma ReadyWithout(after: map<Path, State>, initial: map<Path, State>, dir: Path, auto: bool,
                     order: seq<string>, shown: set<string>, nm: Mapping)
    requires dir in initial && RememberedFolder(order, shown, nm).None?
    requires after == initial[dir := initial[dir].(autoFinish := auto)]
    ensures GroupReady(after, initial, dir, auto, order, shown, nm)
  {
    assert after == initial[dir := after[dir]];
  }

  lemma ReadyWith(after: map<Path, State>, mid: map<Path, State>, initial: map<Path, State>, dir: Path, auto: bool,
                  order: seq<string>, shown: set<string>, nm: Mapping, fp: string)
    requires dir in initial && RememberedFolder(order, shown, nm) == Some(fp)
    requires dir in mid && mid == initial[dir := initial[dir].(keep := mid[dir].keep, preferred := Some(fp))]
    requires SortedSet(mid[dir].keep, InFolder(shown, nm, fp))
    requires after == mid[dir := mid[dir].(autoFinish := auto)]
    ensures GroupReady(after, initial, dir, auto, order, shown, nm)
  {
    assert after == initial[dir := after[dir]];
  }

  class ReviewServer {
    var groupDir: Option<Path>
    var mode: string
    var result: Option<ReviewResult>
    /** Preferred folder paths, most recent first. */
    var preferredFolderOrder: seq<string>
    var autoFinishGlobal: bool
    /** The state files on disk, by group folder; a folder missing here has
        no state file, or one that is not valid JSON. */
    var states: map<Path, State>

    /** The mode is a known one, the preference order holds each folder
        once and never the empty path, and a result is always confirmed. */
    ghost predicate Valid()
      reads this
    {
      mode in KnownModes
      && NoDup(preferredFolderOrder) && "" !in preferredFolderOrder
      && (result.Some? ==> result.value.confirmed)
    }

    /** A server with no group yet, over the state files already on disk. */
    constructor (disk: map<Path, State>)
      ensures Valid()
      ensures groupDir == None && mode == Exact && result == None
      ensures preferredFolderOrder == [] && !autoFinishGlobal && states == disk
    {
      groupDir := None;
      mode := Exact;
      result := None;
      preferredFolderOrder := [];
      autoFinishGlobal := false;
      states := disk;
    }

    /** `_load_state_locked`: the current group's state, if readable. */
    function Load(): Option<State>
      reads this
    {
      if groupDir.Some? && groupDir.value in states then Some(states[groupDir.value]) else None
    }

    /** `self._load_state_locked() or {...}`: the state, or the defaults. */
    function Loaded(): State
      reads this
    {
      Load().GetOr(Fresh)
    }

    /** `_apply_global_folder_preference_locked`: when a remembered folder
        supplies shown files, selects exactly those and records the folder
        as preferred; the Finished count and auto-finish are left alone. */
    method ApplyGlobalFolderPreference(folder: Folder) returns (out: Outcome)
      requires groupDir.Some?
      modifies this
      ensures groupDir == old(groupDir) && mode == old(mode) && result == old(result)
      ensures preferredFolderOrder == old(preferredFolderOrder) && autoFinishGlobal == old(autoFinishGlobal)
      ensures ParseManifestByName(folder.manifest).None? ==> out == Raised && states == old(states)
      ensures groupDir.value in old(states) ==> groupDir.value in states
      ensures ParseManifestByName(folder.manifest).Some? ==>
        out == Ok && PreferenceApplied(states, old(states), groupDir.value, old(Loaded()), preferredFolderOrder,
                                       ShownNames(folder.listing, Hidden), ParseManifestByName(folder.manifest).value)
    {
      var listed := ListItems(folder);
      if listed.None? {
        return Raised;
      }
      ghost var shown := ShownNames(folder.listing, Hidden);
      ghost var nm := ParseManifestByName(folder.manifest).value;
      out := Ok;
      var target := FolderInGroup(listed.value, preferredFolderOrder, shown, nm);
      if target.None? {
        AppliedNothing(states, groupDir.value, Loaded(), preferredFolderOrder, shown, nm);
        return;
      }
      var keep := KeepFromFolder(listed.value, target.value, shown, nm);
      ghost var before := states;
      var state := Loaded().(keep := keep, preferred := target);
      states := states[groupDir.value := state];
      AppliedFolder(states, before, groupDir.value, old(Loaded()), preferredFolderOrder, shown, nm, target.value, keep);
    }

    /** `set_group`: makes dir the current group with the normalised mode,
        drops any earlier result, gives the folder a fresh state file if it
        has none, applies the remembered folder preference, and sets the
        folder's auto-finish to the global choice in exact mode and off in
        the others. The Finished count survives from an existing file. */
    method SetGroup(dir: Path, requested: string, folder: Folder) returns (out: Outcome)
      requires Valid()
      modifies this
      ensures Valid()
      ensures groupDir == Some(dir) && mode == NormalizeMode(requested) && result == None
      ensures preferredFolderOrder == old(preferredFolderOrder) && autoFinishGlobal == old(autoFinishGlobal)
      ensures ParseManifestByName(folder.manifest).None? ==> out == Raised && states == Initialized(old(states), dir)
      ensures ParseManifestByName(folder.manifest).Some? ==>
        out == Ok && GroupReady(states, Initialized(old(states), dir), dir, mode == Exact && autoFinishGlobal,
                                preferredFolderOrder, ShownNames(folder.listing, Hidden), ParseManifestByName(folder.manifest).value)
    {
      groupDir := Some(dir);
      mode := NormalizeMode(requested);
      result := None;
      if dir !in states {
        states := states[dir := Fresh];
      }
      ghost var initial := states;
      assert initial == Initialized(old(states), dir);
      ghost var base := Loaded();
      assert base == initial[dir];
      out := ApplyGlobalFolderPreference(folder);
      if out == Raised {
        return;
      }
      ghost var shown := ShownNames(folder.listing, Hidden);
      ghost var nm := ParseManifestByName(folder.manifest).value;
      ghost var mid := states;
      assert PreferenceApplied(mid, initial, dir, base, preferredFolderOrder, shown, nm);
      var state := Loaded().(autoFinish := mode == Exact && autoFinishGlobal);
      states := states[dir := state];
      ReadyAfterApplied(states, mid, initial, dir, mode == Exact && autoFinishGlobal, preferredFolderOrder, shown, nm);
    }

    /** `api_toggle_keep`: adds a shown file to the selection or removes it.
        Without a group the request is refused with 400, a name that is not
        a shown file with 404, and neither changes anything. */
    method ToggleKeep(name: string, folder: Folder) returns (out: Outcome)
      modifies this
      ensures groupDir == old(groupDir) && mode == old(mode) && result == old(result)
      ensures preferredFolderOrder == old(preferredFolderOrder) && autoFinishGlobal == old(autoFinishGlobal)
      ensures groupDir.None? ==> out == Failed(400, NoActiveGroup) && states == old(states)
      ensures groupDir.Some? && ParseManifestByName(folder.manifest).None? ==> out == Raised && states == old(states)
      ensures groupDir.Some? && ParseManifestByName(folder.manifest).Some? && name !in ShownNames(folder.listing, Hidden) ==>
        out == Failed(404, NotInGroup) && states == old(states)
      ensures groupDir.Some? && ParseManifestByName(folder.manifest).Some? && name in ShownNames(folder.listing, Hidden) ==>
        var gd := groupDir.value;
        out == Ok && gd in states
        && states == old(states)[gd := old(Loaded()).(keep := states[gd].keep)]
        && SortedSet(states[gd].keep, Toggled(Members(old(Loaded()).keep), name))
    {
      if groupDir.None? {
        return Failed(400, NoActiveGroup);
      }
      var listed := ListItems(folder);
      if listed.None? {
        return Raised;
      }
      var items := listed.value;
      var present := set i | 0 <= i < |items| :: items[i].name;
      ItemsShown(items, ShownNames(folder.listing, Hidden), ParseManifestByName(folder.manifest).value);
      assert present == ShownNames(folder.listing, Hidden);
      if name !in present {
        return Failed(404, NotInGroup);
      }
      var state := Loaded();
      var keep := SortedOf(Toggled(Members(state.keep), name));
      states := states[groupDir.value := state.(keep := keep)];
      out := Ok;
    }

    /** `api_prefer_folder`. Preferring the folder that is already preferred
        clears the preference and leaves the selection alone. Otherwise,
        with a group, the selection becomes exactly the shown files from
        that folder, the folder becomes the preferred one, and a non-empty
        folder path moves to the front of the remembered order. */
    method PreferFolder(fp: string, folder: Folder) returns (out: Outcome)
      requires Valid()
      modifies this
      ensures Valid()
      ensures groupDir == old(groupDir) && mode == old(mode) && result == old(result)
      ensures autoFinishGlobal == old(autoFinishGlobal)
      ensures old(Loaded()).preferred == Some(fp) ==>
        groupDir.Some? && out == Ok && preferredFolderOrder == old(preferredFolderOrder)
        && states == old(states)[groupDir.value := old(Loaded()).(preferred := None)]
      ensures old(Loaded()).preferred != Some(fp) && groupDir.None? ==>
        out == Failed(400, NoActiveGroup) && states == old(states) && preferredFolderOrder == old(preferredFolderOrder)
      ensures old(Loaded()).preferred != Some(fp) && groupDir.Some? && ParseManifestByName(folder.manifest).None? ==>
        out == Raised && states == old(states) && preferredFolderOrder == old(preferredFolderOrder)
      ensures old(Loaded()).preferred != Some(fp) && groupDir.Some? && ParseManifestByName(folder.manifest).Some? ==>
        var gd := groupDir.value;
        var shown := ShownNames(folder.listing, Hidden);
        var nm := ParseManifestByName(folder.manifest).value;
        out == Ok && gd in states
        && states == old(states)[gd := old(Loaded()).(keep := states[gd].keep, preferred := Some(fp))]
        && SortedSet(states[gd].keep, InFolder(shown, nm, fp))
        && preferredFolderOrder == if fp == "" then old(preferredFolderOrder) else MoveToFront(old(preferredFolderOrder), fp)
    {
      var state := Loaded();
      if state.preferred == Some(fp) {
        states := states[groupDir.value := state.(preferred := None)];
        return Ok;
      }
      if groupDir.None? {
        return Failed(400, NoActiveGroup);
      }
      var listed := ListItems(folder);
      if listed.None? {
        return Raised;
      }
      var keep := KeepFromFolder(listed.value, fp, ShownNames(folder.listing, Hidden), ParseManifestByName(folder.manifest).value);
      if fp != "" {
        preferredFolderOrder := MoveToFront(preferredFolderOrder, fp);
      }
      states := states[groupDir.value := state.(keep := keep, preferred := Some(fp))];
      out := Ok;
    }

    /** `api_toggle_auto_finish`: in exact mode flips the global choice and
        stores it in the folder's state; in the other modes switches the
        folder's auto-finish off and refuses with 400. */
    method ToggleAutoFinish() returns (out: Outcome)
      modifies this
      ensures groupDir == old(groupDir) && mode == old(mode) && result == old(result)
      ensures preferredFolderOrder == old(preferredFolderOrder)
      ensures groupDir.None? ==> out == Failed(400, NoActiveGroup) && states == old(states) && autoFinishGlobal == old(autoFinishGlobal)
      ensures groupDir.Some? && mode != Exact ==>
        out == Failed(400, ExactOnly) && autoFinishGlobal == old(autoFinishGlobal)
        && states == old(states)[groupDir.value := old(Loaded()).(autoFinish := false)]
      ensures groupDir.Some? && mode == Exact ==>
        out == Ok && autoFinishGlobal == !old(autoFinishGlobal)
        && states == old(states)[groupDir.value := old(Loaded()).(autoFinish := autoFinishGlobal)]
    {
      if groupDir.None? {
        return Failed(400, NoActiveGroup);
      }
      if mode != Exact {
        states := states[groupDir.value := Loaded().(autoFinish := false)];
        return Failed(400, ExactOnly);
      }
      autoFinishGlobal := !autoFinishGlobal;
      states := states[groupDir.value := Loaded().(autoFinish := autoFinishGlobal)];
      out := Ok;
    }

    /** `api_finished`: counts the click in the folder's state; the review
        is confirmed, with the stored selection as the names to keep,
        exactly when the count reaches two or more. */
    method Finished() returns (out: Outcome, confirmed: bool, clicks: int)
      requires Valid()
      modifies this
      ensures Valid()
      ensures groupDir == old(groupDir) && mode == old(mode)
      ensures preferredFolderOrder == old(preferredFolderOrder) && autoFinishGlobal == old(autoFinishGlobal)
      ensures groupDir.None? ==> out == Failed(400, NoActiveGroup) && !confirmed && states == old(states) && result == old(result)
      ensures groupDir.Some? ==>
        out == Ok && clicks == old(Loaded()).clicks + 1
        && states == old(states)[groupDir.value := old(Loaded()).(clicks := clicks)]
        && (confirmed <==> clicks >= 2)
        && (confirmed ==> result == Some(ReviewResult(Members(old(Loaded()).keep), true)))
        && (!confirmed ==> result == old(result))
    {
      if groupDir.None? {
        return Failed(400, NoActiveGroup), false, 0;
      }
      var state := Loaded();
      clicks := state.clicks + 1;
      states := states[groupDir.value := state.(clicks := clicks)];
      out := Ok;
      if clicks < 2 {
        confirmed := false;
        return;
      }
      result := Some(ReviewResult(Members(state.keep), true));
      confirmed := true;
    }

    /** `api_reset_finished`: the Finished count back to zero, nothing else. */
    method ResetFinished() returns (out: Outcome)
      modifies this
      ensures groupDir == old(groupDir) && mode == old(mode) && result == old(result)
      ensures preferredFolderOrder == old(preferredFolderOrder) && autoFinishGlobal == old(autoFinishGlobal)
      ensures groupDir.None? ==> out == Failed(400, NoActiveGroup) && states == old(states)
      ensures groupDir.Some? ==> out == Ok && states == old(states)[groupDir.value := old(Loaded()).(clicks := 0)]
    {
      if groupDir.None? {
        return Failed(400, NoActiveGroup);
      }
      states := states[groupDir.value := Loaded().(clicks := 0)];
      out := Ok;
    }
  }

  /** After a reset, the first Finished click does not confirm and the
      second does, with the selection as it stood. */
  method ConfirmAfterReset(server: ReviewServer) returns (first: bool, second: bool)
    requires server.Valid() && server.groupDir.Some?
    modifies server
    ensures !first && second
    ensures server.result == Some(ReviewResult(Members(old(server.Loaded()).keep), true))
  {
    var _ := server.ResetFinished();
    var _, c1, _ := server.Finished();
    var _, c2, _ := server.Finished();
    first, second := c1, c2;
  }
}
