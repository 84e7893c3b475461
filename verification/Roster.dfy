/** The rotated shortlist of competitors on the "alternatives" pages. */
module Roster {

  datatype Profile = Profile(name: string, domain: string)

  const LIVESOV := Profile("Livesov", "livesov.com")

  predicate DistinctNames(roster: seq<Profile>) {
    forall i, j :: 0 <= i < j < |roster| ==> roster[i].name != roster[j].name
  }

  /** `roster.filter((c) => c.name !== subject)` */
  function Without(roster: seq<Profile>, subject: string): seq<Profile> {
    if roster == [] then [] else
      Without(roster[..|roster| - 1], subject)
      + if roster[|roster| - 1].name != subject then [roster[|roster| - 1]] else []
  }

  /** `findIndex`, or -1 */
  function Position(roster: seq<Profile>, subject: string): (i: int)
    ensures -1 <= i < |roster|
    ensures i != -1 ==> roster[i].name == subject && forall j :: 0 <= j < i ==> roster[j].name != subject
    ensures i == -1 ==> forall j :: 0 <= j < |roster| ==> roster[j].name != subject
  {
    if roster == [] then -1
    else if roster[0].name == subject then 0
    else
      var r := Position(roster[1..], subject);
      if r == -1 then -1 else r + 1
  }

  /** `Math.max(0, Math.min(size - 1, pool.length))` */
  function Slots(size: int, pool: nat): nat {
    if size - 1 <= 0 then 0 else if size - 1 <= pool then size - 1 else pool
  }

  lemma {:induction false} PositionOfSnoc(front: seq<Profile>, last: Profile, subject: string)
    ensures Position(front + [last], subject)
            == if Position(front, subject) != -1 then Position(front, subject)
               else if last.name == subject then |front| else -1
  {
    var roster := front + [last];
    var i, j := Position(roster, subject), Position(front, subject);
    assert forall k :: 0 <= k < |front| ==> roster[k] == front[k];
    assert roster[|front|] == last;
  }

  /** The list without its entry at `i`. */
  function Gap(roster: seq<Profile>, i: int): (pool: seq<Profile>)
    requires -1 <= i < |roster|
    ensures |pool| == if i == -1 then |roster| else |roster| - 1
    ensures forall j :: 0 <= j < |pool| ==> pool[j] == if i == -1 || j < i then roster[j] else roster[j + 1]
  {
    if i == -1 then roster else roster[..i] + roster[i + 1..]
  }

  lemma GapSnoc(front: seq<Profile>, last: Profile, i: int)
    requires -1 <= i < |front|
    ensures Gap(front + [last], i) == Gap(front, i) + [last]
    ensures Gap(front + [last], |front|) == front
  {
  }

  lemma DistinctFront(front: seq<Profile>, last: Profile)
    requires DistinctNames(front + [last])
    ensures DistinctNames(front)
    ensures forall j :: 0 <= j < |front| ==> front[j].name != last.name
  {
    var roster := front + [last];
    assert forall j :: 0 <= j < |front| ==> roster[j] == front[j];
    assert roster[|front|] == last;
  }

  /** The subject leaves a gap in the pool; everybody else is there in order. */
  lemma {:induction false} PoolIsRoster(roster: seq<Profile>, subject: string)
    requires DistinctNames(roster)
    ensures Without(roster, subject) == Gap(roster, Position(roster, subject))
  {
    if roster == [] {
    } else {
      hide Position, Gap, DistinctNames;
      var front, last := roster[..|roster| - 1], roster[|roster| - 1];
      assert roster == front + [last];
      DistinctFront(front, last);
      PoolIsRoster(front, subject);
      hide Without;
      WithoutSnoc(front, last, subject);
      PositionOfSnoc(front, last, subject);
      var i := Position(front, subject);
      GapSnoc(front, last, i);
      NoGap(roster);
      NoGap(front);
    }
  }

  lemma WithoutSnoc(front: seq<Profile>, last: Profile, subject: string)
    ensures Without(front + [last], subject)
            == if last.name != subject then Without(front, subject) + [last] else Without(front, subject)
  {
    assert (front + [last])[..|front|] == front;
  }

  lemma NoGap(roster: seq<Profile>)
    ensures Gap(roster, -1) == roster
  {
  }

  /* ----- the rotation ----- */

  function Mod(x: nat, n: nat): (r: nat)
    requires 0 < n
    ensures r < n
  {
    x % n
  }

  lemma Wrap(x: nat, n: nat)
    requires 0 < n && x < 2 * n
    ensures Mod(x, n) == if x < n then x else x - n
  {
    if x >= n {
      assert (x - n) % n == x - n;
      assert x == 1 * n + (x - n);
    }
  }

  /** What comes after Livesov for the subject at place `i`: the roster, cyclically, from the next entry on. */
  function Shown(roster: seq<Profile>, i: nat, slots: nat): (list: seq<Profile>)
    requires i < |roster| && slots < |roster|
    ensures |list| == slots
  {
    seq(slots, k requires 0 <= k < slots => roster[Mod(i + 1 + k, |roster|)])
  }

  function Expected(roster: seq<Profile>, subject: string, size: int): seq<Profile> {
    var i := Position(roster, subject);
    if i == -1 then roster[..Slots(size, |roster|)] else Shown(roster, i, Slots(size, |roster| - 1))
  }

  /** Counting round the pool and counting round the roster, past the subject, are the same. */
  lemma PoolRotates(roster: seq<Profile>, i: nat, k: nat)
    requires i < |roster| && k < |roster| - 1
    ensures var pool := Gap(roster, i);
            pool[Mod(i + k, |pool|)] == roster[Mod(i + 1 + k, |roster|)]
  {
    hide Mod;
    var n := |roster|;
    Wrap(i + k, n - 1);
    Wrap(i + 1 + k, n);
    var pool := Gap(roster, i);
    var j := if i + k < n - 1 then i + k else i + k - (n - 1);
    assert pool[j] == if j < i then roster[j] else roster[j + 1];
  }

  /** Livesov first, then the rotated window. */
  method BuildShortlist(roster: seq<Profile>, subject: string, size: int) returns (list: seq<Profile>)
    requires DistinctNames(roster)
    ensures list == [LIVESOV] + Expected(roster, subject, size)
    ensures |list| == 1 + (if size <= 1 then 0 else if size - 1 < |Without(roster, subject)| then size - 1
                           else |Without(roster, subject)|)
  {
    hide Position, Without, Mod, DistinctNames, Gap, Shown, Expected;
    var pool := Without(roster, subject);
    PoolIsRoster(roster, subject);
    var slots := Slots(size, |pool|);
    var subjectIndex := Position(roster, subject);
    var offset := if subjectIndex >= 0 then subjectIndex else 0;
    var picked: seq<Profile> := [];
    ExpectedLength(roster, subject, size);
    ghost var expected := Expected(roster, subject, size);
    for i := 0 to slots
      invariant picked == expected[..i]
    {
      PickIsExpected(roster, subject, size, i);
      picked := picked + [pool[Mod(offset + i, |pool|)]];
    }
    list := [LIVESOV] + picked;
  }

  /** How long the list is. */
  lemma ShortlistLength(roster: seq<Profile>, subject: string, size: int)
    ensures var i, list := Position(roster, subject), [LIVESOV] + Expected(roster, subject, size);
            var rivals := if i == -1 then |roster| else |roster| - 1;
            && list[0] == Profile("Livesov", "livesov.com")
            && |list| == 1 + (if size <= 1 then 0 else if size - 1 < rivals then size - 1 else rivals)
  {
    hide Position, Mod;
  }

  /** And who is on it at rank `k`. */
  lemma ShortlistAt(roster: seq<Profile>, subject: string, size: int, k: nat)
    requires k < |Expected(roster, subject, size)|
    ensures var i := Position(roster, subject);
            |roster| > 0 && Expected(roster, subject, size)[k]
                            == roster[if i == -1 then k else (i + 1 + k) % |roster|]
  {
    hide Position;
    var i := Position(roster, subject);
    if i != -1 {
      ShownAt(roster, i, Slots(size, |roster| - 1), k);
    }
  }

  lemma ExpectedLength(roster: seq<Profile>, subject: string, size: int)
    requires DistinctNames(roster)
    ensures |Expected(roster, subject, size)| == Slots(size, |Without(roster, subject)|)
  {
    hide Position, Without, Mod, DistinctNames, Gap, Shown;
    PoolIsRoster(roster, subject);
  }

  lemma PickIsExpected(roster: seq<Profile>, subject: string, size: int, k: nat)
    requires DistinctNames(roster) && k < |Expected(roster, subject, size)|
    ensures var pool, i := Without(roster, subject), Position(roster, subject);
            |pool| > 0 && pool[Mod((if i >= 0 then i else 0) + k, |pool|)] == Expected(roster, subject, size)[k]
  {
    hide Position, Without, Mod, DistinctNames, Gap, Shown;
    PoolIsRoster(roster, subject);
    var i := Position(roster, subject);
    if i >= 0 {
      PoolRotates(roster, i, k);
      ShownAt(roster, i, Slots(size, |roster| - 1), k);
    } else {
      NoGap(roster);
      Wrap(k, |roster|);
    }
  }

  lemma ShownAt(roster: seq<Profile>, i: nat, slots: nat, k: nat)
    requires i < |roster| && slots < |roster| && k < slots
    ensures Shown(roster, i, slots)[k] == roster[Mod(i + 1 + k, |roster|)]
  {
    hide Mod;
  }

  /** No rival is listed twice, and nobody is an alternative to themselves. */
  lemma NoRepeats(roster: seq<Profile>, i: nat, slots: nat, k: nat, l: nat)
    requires DistinctNames(roster) && i < |roster| && slots < |roster| && k < l < slots
    ensures Shown(roster, i, slots)[k].name != Shown(roster, i, slots)[l].name
    ensures Shown(roster, i, slots)[k].name != roster[i].name && Shown(roster, i, slots)[l].name != roster[i].name
  {
    hide Mod;
    Wrap(i + 1 + k, |roster|);
    Wrap(i + 1 + l, |roster|);
  }

  /** Pages about different subjects show different lists, as soon as there is a slot. */
  lemma PagesDiffer(roster: seq<Profile>, i: nat, j: nat, slots: nat)
    requires DistinctNames(roster) && i < |roster| && j < |roster| && i != j && 0 < slots < |roster|
    ensures Shown(roster, i, slots) != Shown(roster, j, slots)
  {
    hide Mod;
    Wrap(i + 1, |roster|);
    Wrap(j + 1, |roster|);
    var p, q := Mod(i + 1, |roster|), Mod(j + 1, |roster|);
    assert Shown(roster, i, slots)[0] == roster[p] && Shown(roster, j, slots)[0] == roster[q];
    assert p != q;
  }
}
