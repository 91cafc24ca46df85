/** `_check_duplicates`, as written in both rendering/stateful_reconciler.py and
    rendering/generate_actions.py: the uids are grouped with `itertools.groupby`,
    which only groups CONSECUTIVE equal keys, and the groups go into a dict, where a
    later group of a uid replaces an earlier one. So the check fails exactly when,
    for some uid, the last run of consecutive siblings carrying it has two or more
    members; duplicates that are not adjacent, or whose last run is single, pass. */
module Duplicates {
  import opened Errors

  /** One group of `groupby`: a key and the length of its run. */
  datatype Run = Run(key: string, len: nat)

  /** `groupby(uids)`: the maximal runs of equal consecutive uids, in order. */
  function Runs(uids: seq<string>): (rs: seq<Run>)
    ensures |rs| == 0 <==> |uids| == 0
    ensures |rs| > 0 ==> rs[|rs| - 1].key == uids[|uids| - 1]
  {
    if uids == [] then []
    else
      var rs := Runs(uids[..|uids| - 1]);
      var x := uids[|uids| - 1];
      if rs != [] && rs[|rs| - 1].key == x then rs[..|rs| - 1] + [Run(x, rs[|rs| - 1].len + 1)]
      else rs + [Run(x, 1)]
  }

  /** `{key: list(group) for key, group in ...}`, keeping the lengths: later groups
      overwrite earlier ones. */
  function GroupDict(rs: seq<Run>): (d: map<string, nat>)
  {
    if rs == [] then map[]
    else GroupDict(rs[..|rs| - 1])[rs[|rs| - 1].key := rs[|rs| - 1].len]
  }

  /** The check itself: the uids whose dict entry holds more than one node. */
  function CheckDuplicates(uids: seq<string>): (r: Result<()>)
    ensures r.Err? ==> r.error.DuplicateUids? && r.error.uids != {}
    ensures r.Err? ==> forall k | k in r.error.uids :: LastRun(uids, k) >= 2
    ensures r.Ok? <==> forall i | 0 <= i < |uids| :: LastRun(uids, uids[i]) < 2
  {
    var d := GroupDict(Runs(uids));
    GroupDictIsLastRun(uids);
    var dups := set k | k in d && d[k] > 1;
    if dups == {} then
      assert forall i | 0 <= i < |uids| :: LastRun(uids, uids[i]) < 2 by {
        forall i | 0 <= i < |uids| ensures LastRun(uids, uids[i]) < 2 {
          assert uids[i] in d && uids[i] !in dups;
        }
      }
      Ok(())
    else
      var k :| k in dups;
      assert LastRun(uids, k) >= 2;
      LastRunPresent(uids, k);
      Err(DuplicateUids(dups))
  }

  // ---------------------------------------------------------------------------
  // The reference definition: the last run of a uid, counted from the back
  // ---------------------------------------------------------------------------

  /** How many copies of `k` end `uids`. */
  function Trailing(uids: seq<string>, k: string): nat {
    if uids == [] || uids[|uids| - 1] != k then 0
    else 1 + Trailing(uids[..|uids| - 1], k)
  }

  /** The length of the last maximal run of `k` in `uids` (0 when `k` is absent). */
  function LastRun(uids: seq<string>, k: string): nat {
    if uids == [] then 0
    else if uids[|uids| - 1] != k then LastRun(uids[..|uids| - 1], k)
    else Trailing(uids, k)
  }

  /** A uid with a non-empty last run occurs in the sequence. */
  lemma {:induction false} LastRunPresent(uids: seq<string>, k: string)
    requires LastRun(uids, k) > 0
    ensures exists i | 0 <= i < |uids| :: uids[i] == k
  {
    if uids[|uids| - 1] != k {
      LastRunPresent(uids[..|uids| - 1], k);
      var i :| 0 <= i < |uids| - 1 && uids[..|uids| - 1][i] == k;
      assert uids[i] == k;
    }
  }

  /** The last run of the last group is the trailing run of the sequence. */
  lemma {:induction false} LastGroupIsTrailing(uids: seq<string>)
    requires uids != []
    ensures var rs := Runs(uids);
            rs[|rs| - 1].len == Trailing(uids, uids[|uids| - 1])
    decreases |uids|
  {
    var pre := uids[..|uids| - 1];
    var x := uids[|uids| - 1];
    if pre != [] && Runs(pre)[|Runs(pre)| - 1].key == x {
      LastGroupIsTrailing(pre);
    }
  }

  /** A uid that occurs has a non-empty last run. */
  lemma {:induction false} LastRunPositive(uids: seq<string>, i: nat)
    requires i < |uids|
    ensures LastRun(uids, uids[i]) > 0
    decreases |uids|
  {
    if i < |uids| - 1 && uids[|uids| - 1] != uids[i] {
      LastRunPositive(uids[..|uids| - 1], i);
    }
  }

  /** Adding a group on the right overwrites its key's entry. */
  lemma GroupDictSnoc(rs: seq<Run>, g: Run)
    ensures GroupDict(rs + [g]) == GroupDict(rs)[g.key := g.len]
  {
    assert (rs + [g])[..|rs|] == rs;
  }

  /** The last uid's dict entry is its trailing run; the other entries are those
      of the sequence without it. */
  lemma GroupDictRunsSnoc(uids: seq<string>)
    requires uids != []
    ensures var pre, x := uids[..|uids| - 1], uids[|uids| - 1];
            GroupDict(Runs(uids)) == GroupDict(Runs(pre))[x := 1 + Trailing(pre, x)]
  {
    var pre, x := uids[..|uids| - 1], uids[|uids| - 1];
    var rs := Runs(pre);
    if rs != [] && rs[|rs| - 1].key == x {
      RunsSnocExtends(uids);
    } else {
      RunsSnocStarts(uids);
    }
  }

  /** A last uid equal to the one before lengthens that run. */
  lemma RunsSnocExtends(uids: seq<string>)
    requires uids != []
    requires var rs := Runs(uids[..|uids| - 1]); rs != [] && rs[|rs| - 1].key == uids[|uids| - 1]
    ensures var pre, x := uids[..|uids| - 1], uids[|uids| - 1];
            GroupDict(Runs(uids)) == GroupDict(Runs(pre))[x := 1 + Trailing(pre, x)]
  {
    var pre, x := uids[..|uids| - 1], uids[|uids| - 1];
    var rs := Runs(pre);
    var init := rs[..|rs| - 1];
    var len := rs[|rs| - 1].len;
    assert rs == init + [Run(x, len)];
    RunsExtendShape(uids);
    LastGroupIsTrailing(pre);
    GroupDictLengthen(init, x, len);
    assert GroupDict(Runs(uids)) == GroupDict(rs)[x := len + 1];
  }

  lemma RunsExtendShape(uids: seq<string>)
    requires uids != []
    requires var rs := Runs(uids[..|uids| - 1]); rs != [] && rs[|rs| - 1].key == uids[|uids| - 1]
    ensures var rs := Runs(uids[..|uids| - 1]);
            Runs(uids) == rs[..|rs| - 1] + [Run(uids[|uids| - 1], rs[|rs| - 1].len + 1)]
  {
  }

  /** Lengthening the last group by one overwrites its entry with the new length. */
  lemma GroupDictLengthen(init: seq<Run>, x: string, len: nat)
    ensures GroupDict(init + [Run(x, len + 1)]) == GroupDict(init + [Run(x, len)])[x := len + 1]
  {
    GroupDictSnoc(init, Run(x, len + 1));
    GroupDictSnoc(init, Run(x, len));
    UpdateTwice(GroupDict(init), x, len, len + 1);
  }

  lemma UpdateTwice(m: map<string, nat>, k: string, a: nat, b: nat)
    ensures m[k := a][k := b] == m[k := b]
  {
  }

  /** Any other last uid starts a new run of one. */
  lemma RunsSnocStarts(uids: seq<string>)
    requires uids != []
    requires var rs := Runs(uids[..|uids| - 1]); !(rs != [] && rs[|rs| - 1].key == uids[|uids| - 1])
    ensures var pre, x := uids[..|uids| - 1], uids[|uids| - 1];
            GroupDict(Runs(uids)) == GroupDict(Runs(pre))[x := 1 + Trailing(pre, x)]
  {
    var pre, x := uids[..|uids| - 1], uids[|uids| - 1];
    assert Runs(uids) == Runs(pre) + [Run(x, 1)];
    GroupDictSnoc(Runs(pre), Run(x, 1));
    assert Trailing(pre, x) == 0;
  }

  /** The dict of groups holds, for every uid, the length of its last run, and no
      uid whose last run is empty. */
  lemma {:induction false} GroupDictLastRun(uids: seq<string>, k: string)
    ensures k in GroupDict(Runs(uids)) ==> GroupDict(Runs(uids))[k] == LastRun(uids, k) > 0
    ensures k !in GroupDict(Runs(uids)) ==> LastRun(uids, k) == 0
    decreases |uids|
  {
    if uids != [] {
      GroupDictLastRun(uids[..|uids| - 1], k);
      GroupDictRunsSnoc(uids);
    }
  }

  /** The dict of groups maps every uid to the length of its last run. */
  lemma GroupDictIsLastRun(uids: seq<string>)
    ensures forall k :: k in GroupDict(Runs(uids)) <==> exists i | 0 <= i < |uids| :: uids[i] == k
    ensures forall k | k in GroupDict(Runs(uids)) :: GroupDict(Runs(uids))[k] == LastRun(uids, k)
  {
    forall k ensures k in GroupDict(Runs(uids)) <==> exists i | 0 <= i < |uids| :: uids[i] == k {
      GroupDictLastRun(uids, k);
      if k in GroupDict(Runs(uids)) {
        LastRunPresent(uids, k);
      }
      if exists i | 0 <= i < |uids| :: uids[i] == k {
        var i :| 0 <= i < |uids| && uids[i] == k;
        LastRunPositive(uids, i);
      }
    }
    forall k | k in GroupDict(Runs(uids)) ensures GroupDict(Runs(uids))[k] == LastRun(uids, k) {
      GroupDictLastRun(uids, k);
    }
  }

  /** Two non-adjacent copies of a uid pass the check. */
  lemma NonAdjacentDuplicatesPass()
    ensures CheckDuplicates(["a", "b", "a"]).Ok?
  {
    var s := ["a", "b", "a"];
    assert s[..2] == ["a", "b"];
    assert ["a", "b"][..1] == ["a"];
    assert LastRun(s, "a") == 1;
    assert LastRun(s, "b") == 1;
    assert forall i | 0 <= i < |s| :: s[i] in {"a", "b"};
  }

  /** An earlier adjacent pair is forgotten when a later single copy follows. */
  lemma EarlierRunForgotten()
    ensures CheckDuplicates(["a", "a", "b", "a"]).Ok?
  {
    var s := ["a", "a", "b", "a"];
    assert s[..3] == ["a", "a", "b"];
    assert LastRun(s, "a") == 1;
    assert ["a", "a", "b"][..2] == ["a", "a"];
    assert LastRun(s, "b") == 1;
    assert forall i | 0 <= i < |s| :: s[i] in {"a", "b"};
  }

  /** Two adjacent copies at the end fail it. */
  lemma AdjacentDuplicatesFail()
    ensures CheckDuplicates(["a", "b", "b"]).Err?
  {
    var s := ["a", "b", "b"];
    assert s[..2] == ["a", "b"];
    assert ["a", "b"][..1] == ["a"];
    assert LastRun(s, s[2]) == 2;
  }
}
