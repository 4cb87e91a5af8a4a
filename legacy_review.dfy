/** The first, single-file review server: one group folder at a time, the
    selection and the Finished count in the folder's state file, and a
    review confirmed by the second Finished click. Requests are the methods
    of `ReviewServer`; the folder's listing is passed in. */
module LegacyReview {
  import opened Wrappers
  import opened Paths
  import opened ReviewFolder

  const StateName: string := "_review_state.json"

  /** The lower-cased names the image listing skips. */
  const Hidden: set<string> := {"_manifest.tsv", "_preview.html", StateName}

  const MissingName: string := "Missing name"
  const NoActiveGroup: string := "No active group"
  const NotInGroup: string := "File not in group"

  /** The state file's content; a missing key reads as its default. */
  datatype State = State(keep: seq<string>, clicks: int)

  /** The state written for a folder without one, and the defaults every
      reader falls back to. */
  const Fresh: State := State([], 0)

  /** How a request ends: answered, or refused with an HTTP status. */
  datatype Outcome = Ok | Failed(status: int, error: string)

  /** `_list_images_locked`: the shown files of the folder, in name order. */
  method ListImages(listing: Listing) returns (names: seq<string>)
    ensures SortedSet(names, ShownNames(listing, Hidden))
  {
    names := SortedOf(ShownNames(listing, Hidden));
  }

  class ReviewServer {
    var groupDir: Option<Path>
    var finishedOnce: bool
    var result: Option<ReviewResult>
    /** The state files on disk, by group folder; a folder missing here has
        no state file, or one that is not valid JSON. */
    var states: map<Path, State>

    /** A result is always a confirmed one. */
    ghost predicate Valid()
      reads this
    {
      result.Some? ==> result.value.confirmed
    }

    constructor (disk: map<Path, State>)
      ensures Valid()
      ensures groupDir == None && !finishedOnce && result == None && states == disk
    {
      groupDir := None;
      finishedOnce := false;
      result := None;
      states := disk;
    }

    /** `self._load_state_locked() or {"keep": [], "finished_clicks": 0}`. */
    function Loaded(): State
      reads this
    {
      if groupDir.Some? && groupDir.value in states then states[groupDir.value] else Fresh
    }

    /** `set_group`: makes dir the current group, drops any earlier result,
        and gives the folder a fresh state file if it has none; an existing
        file, with its selection and Finished count, is kept. */
    method SetGroup(dir: Path)
      modifies this
      ensures Valid()
      ensures groupDir == Some(dir) && !finishedOnce && result == None
      ensures states == if dir in old(states) then old(states) else old(states)[dir := Fresh]
    {
      groupDir := Some(dir);
      finishedOnce := false;
      result := None;
      if dir !in states {
        states := states[dir := Fresh];
      }
    }

    /** `api_toggle_keep`: adds a shown file to the selection or removes it.
        An empty name is refused with 400 before anything else, a missing
        group with 400, a name that is not a shown file with 404, and none
        of them changes anything. */
    method ToggleKeep(name: string, listing: Listing) returns (out: Outcome)
      modifies this
      ensures groupDir == old(groupDir) && finishedOnce == old(finishedOnce) && result == old(result)
      ensures name == "" ==> out == Failed(400, MissingName) && states == old(states)
      ensures name != "" && groupDir.None? ==> out == Failed(400, NoActiveGroup) && states == old(states)
      ensures name != "" && groupDir.Some? && name !in ShownNames(listing, Hidden) ==>
        out == Failed(404, NotInGroup) && states == old(states)
      ensures name != "" && groupDir.Some? && name in ShownNames(listing, Hidden) ==>
        var gd := groupDir.value;
        out == Ok && gd in states
        && states == old(states)[gd := old(Loaded()).(keep := states[gd].keep)]
        && SortedSet(states[gd].keep, Toggled(Members(old(Loaded()).keep), name))
    {
      if name == "" {
        return Failed(400, MissingName);
      }
      if groupDir.None? {
        return Failed(400, NoActiveGroup);
      }
      var images := ListImages(listing);
      if name !in images {
        return Failed(404, NotInGroup);
      }
      var state := Loaded();
      var keep := SortedOf(Toggled(Members(state.keep), name));
      states := states[groupDir.value := state.(keep := keep)];
      out := Ok;
    }

    /** `api_finished`: counts the click in the folder's state; the review
        is confirmed, with the stored selection as the names to keep,
        exactly when the count reaches two or more. */
    method Finished() returns (out: Outcome, confirmed: bool, clicks: int)
      requires Valid()
      modifies this
      ensures Valid()
      ensures groupDir == old(groupDir) && finishedOnce == old(finishedOnce)
      ensures groupDir.None? ==> out == Failed(400, NoActiveGroup) && !confirmed && states == old(states) && result == old(result)
      ensures groupDir.Some? ==>
        out == Ok && clicks == old(Loaded()).clicks + 1
        && states == old(states)[groupDir.value := old(Loaded()).(clicks := clicks)]
        && (confirmed <==> clicks >= 2)
        && (confirmed ==> result == Some(ReviewResult(Members(old(Loaded()).keep), true)))
        && (!confirmed ==> result == old(result))
    {
      if groupDir.None? {
        return Failed(400, NoActiveGroup), false, 0;
      }
      var state := Loaded();
      clicks := state.clicks + 1;
      states := states[groupDir.value := state.(clicks := clicks)];
      out := Ok;
      if clicks < 2 {
        confirmed := false;
        return;
      }
      result := Some(ReviewResult(Members(state.keep), true));
      confirmed := true;
    }

    /** `api_reset_finished`: the Finished count back to zero, nothing else. */
    method ResetFinished() returns (out: Outcome)
      modifies this
      ensures groupDir == old(groupDir) && finishedOnce == old(finishedOnce) && result == old(result)
      ensures groupDir.None? ==> out == Failed(400, NoActiveGroup) && states == old(states)
      ensures groupDir.Some? ==> out == Ok && states == old(states)[groupDir.value := old(Loaded()).(clicks := 0)]
    {
      if groupDir.None? {
        return Failed(400, NoActiveGroup);
      }
      states := states[groupDir.value := Loaded().(clicks := 0)];
      out := Ok;
    }
  }

  /** On a freshly set group without a state file, the first Finished click
      does not confirm and the second confirms an empty selection. */
  method ConfirmFreshGroup(server: ReviewServer, dir: Path) returns (first: bool, second: bool)
    requires dir !in server.states
    modifies server
    ensures !first && second
    ensures server.result == Some(ReviewResult({}, true))
  {
    server.SetGroup(dir);
    assert Members(Fresh.keep) == {};
    var _, c1, _ := server.Finished();
    var _, c2, _ := server.Finished();
    first, second := c1, c2;
  }
}
