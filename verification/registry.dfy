/** The voice command registry of voice/commands/__init__.py: the YouTube
    and tab-control tables merged into one dictionary, dispatch by key, and
    the two lookups. A Python dictionary is modelled as an association list
    in insertion order with distinct keys, since iteration order decides
    ties in the matcher. */
module Registry {
  import opened Wrappers

  /** One table entry. Every entry of both tables has `keys: None`, which is
      never read and is left out; `confidence_threshold` may be absent from
      an entry in general, hence the option. */
  datatype CommandInfo = CommandInfo(description: string, action: string, threshold: Option<real>)

  predicate DistinctKeys(t: seq<(string, CommandInfo)>) {
    forall i, j :: 0 <= i < j < |t| ==> t[i].0 != t[j].0
  }

  /** A dictionary from command phrase to entry, in insertion order. */
  type Dict = t: seq<(string, CommandInfo)> | DistinctKeys(t) witness []

  /** `list(d.keys())`. */
  function Keys(d: seq<(string, CommandInfo)>): (r: seq<string>)
    ensures |r| == |d|
    ensures forall i :: 0 <= i < |d| ==> r[i] == d[i].0
  {
    if d == [] then [] else [d[0].0] + Keys(d[1..])
  }

  /** `d.get(key)`: the entry stored under `key`, if any. */
  function Lookup(d: seq<(string, CommandInfo)>, key: string): (r: Option<CommandInfo>)
    ensures r.None? <==> forall i :: 0 <= i < |d| ==> d[i].0 != key
    ensures r.Some? ==> exists i :: 0 <= i < |d| && d[i] == (key, r.value)
  {
    if d == [] then None
    else if d[0].0 == key then Some(d[0].1)
    else
      var r := Lookup(d[1..], key);
      assert r.Some? ==> exists i :: 0 <= i < |d[1..]| && d[1..][i] == (key, r.value);
      assert r.Some? ==> exists i :: 0 <= i < |d| && d[i] == (key, r.value) by {
        if r.Some? {
          var i :| 0 <= i < |d[1..]| && d[1..][i] == (key, r.value);
          assert d[i + 1] == (key, r.value);
        }
      }
      r
  }

  /** In a dictionary, the entry at a key's position is the one looked up. */
  lemma LookupAt(d: Dict, i: nat)
    requires i < |d|
    ensures Lookup(d, d[i].0) == Some(d[i].1)
  {
    var r := Lookup(d, d[i].0);
    var j :| 0 <= j < |d| && d[j] == (d[i].0, r.value);
  }

  /** `d[key] = value`: an existing key keeps its place and takes the new
      value, a new key goes to the end. */
  function Put(d: Dict, key: string, value: CommandInfo): (r: Dict)
    ensures forall k :: Lookup(r, k) == if k == key then Some(value) else Lookup(d, k)
    ensures Lookup(d, key).Some? ==> Keys(r) == Keys(d)
    ensures Lookup(d, key).None? ==> Keys(r) == Keys(d) + [key]
  {
    if Lookup(d, key).None? then
      var r := d + [(key, value)];
      assert forall k :: Lookup(r, k) == if k == key then Some(value) else Lookup(d, k) by {
        forall k ensures Lookup(r, k) == if k == key then Some(value) else Lookup(d, k) {
          LookupAppend(d, (key, value), k);
        }
      }
      r
    else
      var i := IndexOf(d, key);
      var r := d[i := (key, value)];
      assert DistinctKeys(r);
      assert forall k :: Lookup(r, k) == if k == key then Some(value) else Lookup(d, k) by {
        forall k ensures Lookup(r, k) == if k == key then Some(value) else Lookup(d, k) {
          if k == key {
            LookupAt(r, i);
          } else if Lookup(d, k).Some? {
            var j :| 0 <= j < |d| && d[j] == (k, Lookup(d, k).value);
            LookupAt(r, j);
          }
        }
      }
      r
  }

  /** Position of a present key. */
  function IndexOf(d: seq<(string, CommandInfo)>, key: string): (i: nat)
    requires Lookup(d, key).Some?
    ensures i < |d| && d[i].0 == key
  {
    if d[0].0 == key then 0 else 1 + IndexOf(d[1..], key)
  }

  lemma LookupAppend(d: seq<(string, CommandInfo)>, e: (string, CommandInfo), k: string)
    requires Lookup(d, e.0).None?
    ensures Lookup(d + [e], k) == if k == e.0 then Some(e.1) else Lookup(d, k)
  {
    if d != [] {
      assert (d + [e])[1..] == d[1..] + [e];
      LookupAppend(d[1..], e, k);
    }
  }

  /** `d.update(u)`: the entries of `u` in their order, each stored as by
      `Put`. Afterwards every key of `u` holds `u`'s entry and every other key
      its old one. */
  function Update(d: Dict, u: Dict): (r: Dict)
    ensures forall k :: Lookup(r, k) == if Lookup(u, k).Some? then Lookup(u, k) else Lookup(d, k)
    decreases |u|
  {
    if u == [] then d
    else
      var d1 := Put(d, u[0].0, u[0].1);
      var rest: Dict := u[1..];
      var r := Update(d1, rest);
      assert forall k :: Lookup(r, k) == if Lookup(u, k).Some? then Lookup(u, k) else Lookup(d, k) by {
        forall k ensures Lookup(r, k) == if Lookup(u, k).Some? then Lookup(u, k) else Lookup(d, k) {
          if k == u[0].0 {
            assert Lookup(rest, k).None?;
          }
        }
      }
      r
  }

  function Entry(description: string, action: string): CommandInfo {
    CommandInfo(description, action, Some(0.6))
  }

  /** `YOUTUBE_COMMANDS` of voice/commands/youtube.py. */
  const YoutubeCommands: Dict :=
    [("ユチュブを開いて", Entry("Open YouTube", "open_youtube")),
     ("YouTube開いて", Entry("Open YouTube", "open_youtube")),
     ("YouTubeを開いて", Entry("Open YouTube", "open_youtube")),
     ("youtube開いて", Entry("Open YouTube", "open_youtube"))]

  /** `TAB_COMMANDS` of voice/commands/tab_control.py. */
  const TabCommands: Dict :=
    [("タブを閉じて", Entry("Close current tab", "close_tab")),
     ("tabを閉じて", Entry("Close current tab", "close_tab")),
     ("タブ閉じて", Entry("Close current tab", "close_tab")),
     ("tab閉じて", Entry("Close current tab", "close_tab"))]

  /** `ALL_COMMANDS`: an empty dictionary updated with the YouTube table,
      then with the tab table, so a tab entry wins any key clash. */
  function AllCommands(): (r: Dict)
    ensures forall k ::
      Lookup(r, k) == if Lookup(TabCommands, k).Some? then Lookup(TabCommands, k)
                      else Lookup(YoutubeCommands, k)
  {
    var empty: Dict := [];
    Update(Update(empty, YoutubeCommands), TabCommands)
  }

  /** `get_all_commands`. */
  function GetAllCommands(d: Dict): (r: seq<string>)
    ensures |r| == |d|
    ensures forall k :: k in r <==> Lookup(d, k).Some?
  {
    var r := Keys(d);
    assert forall k :: k in r <==> Lookup(d, k).Some? by {
      forall k ensures k in r <==> Lookup(d, k).Some? {
        if k in r {
          var i :| 0 <= i < |r| && r[i] == k;
          assert d[i].0 == k;
        }
      }
    }
    r
  }

  /** `get_command_info`. */
  function GetCommandInfo(d: Dict, key: string): (r: Option<CommandInfo>)
    ensures r.Some? <==> key in GetAllCommands(d)
    ensures r.Some? ==> exists i :: 0 <= i < |d| && d[i] == (key, r.value)
  {
    Lookup(d, key)
  }

  /** The two action routines the dispatcher can run. */
  datatype Routine = OpenYoutube | CloseTab

  /** The result of `execute_command`, and the routine it ran, if any. */
  datatype Dispatch = Dispatch(success: bool, ran: Option<Routine>)

  /** `execute_command`. `youtube` and `closeTab` are what
      `execute_open_youtube` and `execute_close_tab` would return, or
      `Raised` if they throw, which the dispatcher turns into failure. */
  function ExecuteCommand(d: Dict, key: string, youtube: Outcome<bool>,
                          closeTab: Outcome<bool>): (r: Dispatch)
    // an unknown key fails and runs nothing
    ensures Lookup(d, key).None? ==> r == Dispatch(false, None)
    // the routine named by the entry's action runs, and its answer is the answer
    ensures r.ran == Some(OpenYoutube) <==>
      Lookup(d, key).Some? && Lookup(d, key).value.action == "open_youtube"
    ensures r.ran == Some(CloseTab) <==>
      Lookup(d, key).Some? && Lookup(d, key).value.action == "close_tab"
    ensures r.ran == Some(OpenYoutube) ==> r.success == (youtube == Returned(true))
    ensures r.ran == Some(CloseTab) ==> r.success == (closeTab == Returned(true))
    // any other known action counts as done
    ensures Lookup(d, key).Some? && r.ran.None? ==> r.success
  {
    match Lookup(d, key)
    case None => Dispatch(false, None)
    case Some(info) =>
      if info.action == "open_youtube" then
        Dispatch(match youtube case Returned(b) => b case Raised => false, Some(OpenYoutube))
      else if info.action == "close_tab" then
        Dispatch(match closeTab case Returned(b) => b case Raised => false, Some(CloseTab))
      else
        Dispatch(true, None)
  }

  /** Updating with a dictionary none of whose keys is present appends its
      keys in order. */
  lemma {:induction false} UpdateFresh(d: Dict, u: Dict)
    requires forall i :: 0 <= i < |u| ==> Lookup(d, u[i].0).None?
    ensures Keys(Update(d, u)) == Keys(d) + Keys(u)
    decreases |u|
  {
    if u != [] {
      var d1 := Put(d, u[0].0, u[0].1);
      var rest: Dict := u[1..];
      assert forall i :: 0 <= i < |rest| ==> Lookup(d1, rest[i].0).None? by {
        forall i | 0 <= i < |rest| ensures Lookup(d1, rest[i].0).None? {
          assert rest[i] == u[i + 1];
          assert rest[i].0 != u[0].0;
        }
      }
      UpdateFresh(d1, rest);
      assert Update(d, u) == Update(d1, rest);
      assert Keys(d1) == Keys(d) + [u[0].0];
      assert Keys(u) == [u[0].0] + Keys(rest);
      ConcatAssoc(Keys(d), [u[0].0], Keys(rest));
    }
  }

  lemma ConcatAssoc<T>(a: seq<T>, b: seq<T>, c: seq<T>)
    ensures a + b + c == a + (b + c)
  {
  }

  /** No phrase of the tab table is a YouTube phrase. */
  lemma TablesDisjoint()
    ensures forall i :: 0 <= i < |TabCommands| ==> Lookup(YoutubeCommands, TabCommands[i].0).None?
  {
    // the phrases already differ in their first character
    assert forall i :: 0 <= i < |TabCommands| ==> TabCommands[i].0[0] in {'タ', 't'};
    assert forall j :: 0 <= j < |YoutubeCommands| ==> YoutubeCommands[j].0[0] in {'ユ', 'Y', 'y'};
    forall i | 0 <= i < |TabCommands| ensures Lookup(YoutubeCommands, TabCommands[i].0).None? {
      forall j | 0 <= j < |YoutubeCommands| ensures YoutubeCommands[j].0 != TabCommands[i].0 {
        assert YoutubeCommands[j].0[0] != TabCommands[i].0[0];
      }
    }
  }

  /** Merging two dictionaries with no key in common into an empty one
      lists the first one's keys, then the second one's. */
  lemma MergeKeys(a: Dict, b: Dict)
    requires forall i :: 0 <= i < |b| ==> Lookup(a, b[i].0).None?
    ensures Keys(Update(Update([], a), b)) == Keys(a) + Keys(b)
  {
    var empty: Dict := [];
    UpdateFresh(empty, a);
    var y := Update(empty, a);
    assert Keys(empty) + Keys(a) == Keys(a);
    forall i | 0 <= i < |b| ensures Lookup(y, b[i].0).None? {
      assert Lookup(empty, b[i].0).None?;
    }
    UpdateFresh(y, b);
  }

  /** No phrase is shared between the two tables, so the merge keeps all
      eight, YouTube phrases first. */
  lemma AllCommandsKeys()
    ensures GetAllCommands(AllCommands()) == Keys(YoutubeCommands) + Keys(TabCommands)
  {
    TablesDisjoint();
    MergeKeys(YoutubeCommands, TabCommands);
  }

  /** Every entry of the YouTube table opens YouTube, every entry of the tab
      table closes the tab. */
  lemma TableActions()
    ensures forall i :: 0 <= i < |YoutubeCommands| ==> YoutubeCommands[i].1.action == "open_youtube"
    ensures forall i :: 0 <= i < |TabCommands| ==> TabCommands[i].1.action == "close_tab"
  {
  }

  /** Every registered phrase runs one of the two routines, so dispatching a
      registered phrase answers exactly what that routine answers. */
  lemma RegisteredPhrasesRunARoutine(key: string, youtube: Outcome<bool>, closeTab: Outcome<bool>)
    requires key in GetAllCommands(AllCommands())
    ensures ExecuteCommand(AllCommands(), key, youtube, closeTab).ran.Some?
  {
    var info := Lookup(AllCommands(), key);
    TableActions();
    if Lookup(TabCommands, key).Some? {
      var i :| 0 <= i < |TabCommands| && TabCommands[i] == (key, info.value);
    } else {
      var i :| 0 <= i < |YoutubeCommands| && YoutubeCommands[i] == (key, info.value);
    }
  }
}
