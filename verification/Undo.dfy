/** Undo over whole runs: which snapshot a revert restores, and how exactly. */
module Undo {
  import opened Php
  import opened Tree
  import opened Slashes
  import opened Builders
  import opened Patch
  import opened Store

  /** What can happen to a page.  An edit is anything done outside the connector. */
  datatype Event =
    | Attempt(req: Request, cut: nat)
    | Staging(req: Request, token: string, now: int)
    | Edited(content: string, title: string, meta: map<string, Node>, seo: map<string, string>)
    | Reverted(taken: bool, cut: nat)

  function Happen(p: Page, e: Event, wp: Wp): Page {
    match e
    case Attempt(req, cut) => Publish(p, req, cut, wp)
    case Staging(req, token, now) => Stage(p, req, token, now, wp)
    case Edited(content, title, meta, seo) => p.(content := content, title := title, meta := meta, seo := seo)
    case Reverted(taken, cut) => Revert(p, taken, cut, wp)
  }

  function After(p: Page, h: seq<Event>, wp: Wp): Page {
    if h == [] then p else Happen(After(p, h[..|h| - 1], wp), h[|h| - 1], wp)
  }

  /** The revert runs to its end, where it forgets the snapshot. */
  predicate Forgets(p: Page, e: Event) {
    e.Reverted? && RevertCompletes(p, e.taken, e.cut)
  }

  /** The attempt gets as far as its first write. */
  predicate Effective(p: Page, e: Event, wp: Wp) {
    e.Attempt? && e.cut > 0 && ChangeOf(p, e.req, wp).Some?
  }

  /* ----- who writes the snapshot ----- */

  lemma {:induction false} NoBackupWritten(p: Page, ws: seq<Write>, wp: Wp)
    requires forall i :: 0 <= i < |ws| ==> !ws[i].SetBackup? && !ws[i].DropBackup?
    ensures WroteAll(p, ws, wp).backup == p.backup
    decreases |ws|
  {
    if ws == [] {
    } else {
      NoBackupWritten(Wrote(p, ws[0], wp), ws[1..], wp);
    }
  }

  lemma ChangeWritesKind(c: Change, id: string)
    ensures forall i :: 0 <= i < |ChangeWrites(c, id)| ==>
              !ChangeWrites(c, id)[i].SetBackup? && !ChangeWrites(c, id)[i].DropBackup?
  {
    hide SlashMeta, BlockKey;
  }

  /** An effective attempt snapshots unless the snapshot at hand is its own; nothing else does. */
  lemma AttemptBackup(p: Page, e: Event, wp: Wp)
    requires e.Attempt?
    ensures Happen(p, e, wp).backup
            == if Effective(p, e, wp) && ShouldSnapshot(p.backup, e.req.id)
               then Some(UnslashBackup(BackupOf(p, ChangeOf(p, e.req, wp).value.builder, e.req.id)))
               else p.backup
  {
    hide ChangeWrites, BackupOf, UnslashBackup, ChangeOf;
    if ChangeOf(p, e.req, wp).Some? {
      var c := ChangeOf(p, e.req, wp).value;
      var snap, rest := SnapshotWrites(p, c, e.req.id), ChangeWrites(c, e.req.id);
      CutConcat(p, snap, rest, e.cut, wp);
      ChangeWritesKind(c, e.req.id);
      if e.cut >= |snap| {
        NoBackupWritten(WroteAll(p, Cut(snap, e.cut), wp), Cut(rest, e.cut - |snap|), wp);
      }
    }
  }

  lemma OtherBackup(p: Page, e: Event, wp: Wp)
    requires !e.Attempt?
    ensures Happen(p, e, wp).backup == if Forgets(p, e) then None else p.backup
  {
    if e.Reverted? && p.backup.Some? {
      hide WroteAll, RevertWrites;
      RevertBackup(p, p.backup.value, e.taken, e.cut, wp);
    }
  }

  lemma RevertBackup(p: Page, b: Backup, taken: bool, cut: nat, wp: Wp)
    requires p.backup == Some(b)
    ensures var ws := RevertWrites(b, taken);
            WroteAll(p, Cut(ws, cut), wp).backup == if cut >= |ws| then None else p.backup
  {
    hide WroteAll, SlashMeta;
    var ws := RevertWrites(b, taken);
    var n := |ws| - 1;
    assert ws[n] == DropBackup && forall i :: 0 <= i < n ==> !ws[i].SetBackup? && !ws[i].DropBackup?;
    if cut < |ws| {
      NoBackupWritten(p, ws[..cut], wp);
    } else {
      WroteSnoc(p, ws, n, wp);
      assert ws[..n + 1] == ws;
    }
  }

  /* ----- blocks of attempts ----- */

  predicate Touches(p: Page, e: Event, wp: Wp) {
    Forgets(p, e) || Effective(p, e, wp)
  }

  /** The last event before `f` that took a snapshot, kept one for its own id, or dropped it; or -1. */
  function LastTouch(p: Page, h: seq<Event>, f: nat, wp: Wp): (g: int)
    requires f <= |h|
    ensures -1 <= g < f
  {
    if f == 0 then -1
    else if Touches(After(p, h[..f - 1], wp), h[f - 1], wp) then f - 1
    else LastTouch(p, h, f - 1, wp)
  }

  /** `h[f]` is the first attempt of its block: what came before was for something else. */
  predicate StartsBlock(p: Page, h: seq<Event>, f: nat, wp: Wp)
    requires f < |h| && h[f].Attempt?
  {
    var id, g := h[f].req.id, LastTouch(p, h, f, wp);
    || id == ""
    || (if g == -1 then p.backup.None? || p.backup.value.fix != id
        else !h[g].Attempt? || h[g].req.id != id)
  }

  /** Every effective attempt after `h[f]` repeats its id, and no revert runs to its end. */
  predicate BlockRunsOn(p: Page, h: seq<Event>, f: nat, wp: Wp)
    requires f < |h| && h[f].Attempt?
  {
    forall k :: f < k < |h| ==>
      && !Forgets(After(p, h[..k], wp), h[k])
      && (Effective(After(p, h[..k], wp), h[k], wp) ==> h[k].req.id == h[f].req.id != "")
  }

  /** Instruction ids carry no backslash, so the store keeps them. */
  predicate PlainIds(h: seq<Event>) {
    forall k :: 0 <= k < |h| && h[k].Attempt? ==> '\\' !in h[k].req.id
  }

  lemma AfterSnoc(p: Page, h: seq<Event>, k: nat, wp: Wp)
    requires k < |h|
    ensures After(p, h[..k + 1], wp) == Happen(After(p, h[..k], wp), h[k], wp)
  {
    assert h[..k + 1][..k] == h[..k];
  }

  /** An effective attempt leaves a snapshot marked with its id. */
  lemma MarkedBackup(p: Page, e: Event, wp: Wp)
    requires Effective(p, e, wp) && '\\' !in e.req.id
    ensures Happen(p, e, wp).backup.Some? && Happen(p, e, wp).backup.value.fix == e.req.id
  {
    hide Happen, UnslashState, Read, ChangeOf;
    AttemptBackup(p, e, wp);
    StripFixed(e.req.id);
  }

  /** Between touches the snapshot stays. */
  lemma {:induction false} SinceLastTouch(p: Page, h: seq<Event>, f: nat, wp: Wp)
    requires f <= |h|
    ensures var g := LastTouch(p, h, f, wp);
            After(p, h[..f], wp).backup == if g == -1 then p.backup else After(p, h[..g + 1], wp).backup
  {
    if f > 0 {
      hide After, Happen, Touches;
      var before, e := After(p, h[..f - 1], wp), h[f - 1];
      AfterSnoc(p, h, f - 1, wp);
      if !Touches(before, e, wp) {
        SinceLastTouch(p, h, f - 1, wp);
        QuietEvent(before, e, wp);
      }
    } else {
      assert h[..0] == [];
    }
  }

  lemma QuietEvent(p: Page, e: Event, wp: Wp)
    requires !Touches(p, e, wp)
    ensures Happen(p, e, wp).backup == p.backup
  {
    hide Happen, ChangeOf;
    if e.Attempt? { AttemptBackup(p, e, wp); } else { OtherBackup(p, e, wp); }
  }

  lemma FirstOfBlockSnapshots(p: Page, h: seq<Event>, f: nat, wp: Wp)
    requires f < |h| && h[f].Attempt? && StartsBlock(p, h, f, wp) && PlainIds(h)
    ensures ShouldSnapshot(After(p, h[..f], wp).backup, h[f].req.id)
  {
    hide After, Happen;
    var g := LastTouch(p, h, f, wp);
    SinceLastTouch(p, h, f, wp);
    if g != -1 {
      LastTouchTouches(p, h, f, wp);
      AfterSnoc(p, h, g, wp);
      var before := After(p, h[..g], wp);
      if h[g].Attempt? {
        MarkedBackup(before, h[g], wp);
      } else {
        OtherBackup(before, h[g], wp);
      }
    }
  }

  lemma {:induction false} LastTouchTouches(p: Page, h: seq<Event>, f: nat, wp: Wp)
    requires f <= |h| && LastTouch(p, h, f, wp) != -1
    ensures var g := LastTouch(p, h, f, wp); Touches(After(p, h[..g], wp), h[g], wp)
  {
    if !Touches(After(p, h[..f - 1], wp), h[f - 1], wp) {
      LastTouchTouches(p, h, f - 1, wp);
    }
  }

  /** Through the rest of the block the snapshot of its first attempt is kept. */
  lemma {:induction false} BlockKeepsSnapshot(p: Page, h: seq<Event>, f: nat, k: nat, wp: Wp)
    requires f < k <= |h| && h[f].Attempt? && Effective(After(p, h[..f], wp), h[f], wp)
    requires StartsBlock(p, h, f, wp) && BlockRunsOn(p, h, f, wp) && PlainIds(h)
    ensures var start := After(p, h[..f], wp);
            After(p, h[..k], wp).backup
            == Some(UnslashBackup(BackupOf(start, ChangeOf(start, h[f].req, wp).value.builder, h[f].req.id)))
  {
    hide After, Happen, BackupOf, StartsBlock, ChangeOf;
    var start := After(p, h[..f], wp);
    AfterSnoc(p, h, k - 1, wp);
    if k == f + 1 {
      FirstOfBlockSnapshots(p, h, f, wp);
      AttemptBackup(start, h[f], wp);
    } else {
      BlockKeepsSnapshot(p, h, f, k - 1, wp);
      var before, e := After(p, h[..k - 1], wp), h[k - 1];
      StripFixed(h[f].req.id);
      BackupFix(start, ChangeOf(start, h[f].req, wp).value.builder, h[f].req.id);
      if e.Attempt? { AttemptBackup(before, e, wp); } else { OtherBackup(before, e, wp); }
    }
  }

  lemma BackupFix(p: Page, b: Builder, id: string)
    ensures UnslashBackup(BackupOf(p, b, id)).fix == StripSlashes(id)
  {
  }

  /* ----- what a revert puts back ----- */

  predicate NamedDistinct(m: seq<Item>) {
    && (forall i :: 0 <= i < |m| ==> m[i].key.Name?)
    && (forall i, j :: 0 <= i < j < |m| ==> m[i].key != m[j].key)
  }

  /** Persisting writes each value under its own key and touches nothing else. */
  lemma {:induction false} PersistEffect(p: Page, b: Builder, m: seq<Item>, n: nat, wp: Wp)
    requires NamedDistinct(m) && n <= |m|
    ensures var q := WroteAll(p, MetaWrites(b, m)[..n], wp);
            && q == p.(meta := q.meta)
            && (forall i :: 0 <= i < n ==>
                 m[i].key.s in q.meta && q.meta[m[i].key.s] == Kept(b, m[i].key.s, m[i].value))
            && (forall k :: (forall i :: 0 <= i < n ==> m[i].key.s != k) ==> GetMeta(q.meta, k) == GetMeta(p.meta, k))
  {
    hide WroteAll, Kept, Unslash, SlashMeta;
    var ws := MetaWrites(b, m);
    if n == 0 {
      assert ws[..0] == [] && WroteAll(p, [], wp) == p by { NothingWrote(p, wp); }
    } else {
      PersistEffect(p, b, m, n - 1, wp);
      WroteSnoc(p, ws, n - 1, wp);
      PersistOne(WroteAll(p, ws[..n - 1], wp), b, m[n - 1], wp);
    }
  }

  lemma NothingWrote(p: Page, wp: Wp)
    ensures WroteAll(p, [], wp) == p
  {
  }

  lemma PersistOne(p: Page, b: Builder, item: Item, wp: Wp)
    requires item.key.Name?
    ensures var q := Wrote(p, SetMeta(item.key, SlashMeta(b, MetaKey(item.key), item.value)), wp);
            && q == p.(meta := q.meta)
            && q.meta == p.meta[item.key.s := Kept(b, item.key.s, item.value)]
  {
  }

  lemma ReadShape(b: Builder, p: Post)
    ensures NamedDistinct(Read(b, p).meta)
    ensures Read(b, p).content == if InContent(b) then Some(p.content) else None
  {
  }

  lemma ReadNamed(b: Builder, p: Post)
    ensures NamedDistinct(Read(b, p).meta)
    ensures NamedDistinct(UnslashItems(Read(b, p).meta))
  {
    ReadShape(b, p);
    var m := Read(b, p).meta;
    hide Unslash, UnslashItems, Read;
    forall i | 0 <= i < |m|
      ensures UnslashItems(m)[i].key == m[i].key
    {
      UnslashItemAt(m, i);
    }
  }

  /** A revert that completes, as its stretches of writes. */
  lemma RevertInSteps(p: Page, b: Backup, taken: bool, cut: nat, wp: Wp)
    requires p.backup == Some(b) && RevertCompletes(p, taken, cut)
    ensures var post := if b.state.content.Some? && taken then [SetPost(b.state.content.value, Some(b.title))] else [];
            var q := WroteAll(WroteAll(p, post, wp), MetaWrites(b.builder, b.state.meta), wp);
            Revert(p, taken, cut, wp) == q.(appended := [], backup := None)
  {
    hide WroteAll, MetaWrites;
    var post := if b.state.content.Some? && taken then [SetPost(b.state.content.value, Some(b.title))] else [];
    var metas, end := MetaWrites(b.builder, b.state.meta), [DropBlocks, DropBackup];
    var all := RevertWrites(b, taken);
    assert Cut(all, cut) == all == post + metas + end;
    WroteConcat(p, post + metas, end, wp);
    WroteConcat(p, post, metas, wp);
    var q := WroteAll(p, post + metas, wp);
    WroteSnoc(q, end, 0, wp);
    WroteSnoc(q, end, 1, wp);
    assert end[..0] == [] && end[..2] == end;
    NothingWrote(q, wp);
  }

  /** The page after the revert, key by key: each value is back exactly if it has no backslash. */
  lemma RevertedMeta(p: Page, start: Page, b: Builder, id: string, taken: bool, cut: nat, wp: Wp)
    requires p.backup == Some(UnslashBackup(BackupOf(start, b, id))) && RevertCompletes(p, taken, cut)
    ensures var m, q := Read(b, PostOf(start)).meta, Revert(p, taken, cut, wp);
            && NamedDistinct(m)
            && (forall i :: 0 <= i < |m| ==>
                  && m[i].key.s in q.meta
                  && q.meta[m[i].key.s] == Kept(b, m[i].key.s, Unslash(m[i].value))
                  && (q.meta[m[i].key.s] == m[i].value <==> NoBackslash(m[i].value)))
            && (forall k :: (forall i :: 0 <= i < |m| ==> m[i].key.s != k) ==> GetMeta(q.meta, k) == GetMeta(p.meta, k))
  {
    hide Read, WroteAll, MetaWrites, Kept, Unslash, UnslashItems, GetMeta, Revert, RevertCompletes;
    var s := Read(b, PostOf(start));
    var m, u := s.meta, UnslashItems(s.meta);
    ReadNamed(b, PostOf(start));
    RevertInSteps(p, p.backup.value, taken, cut, wp);
    var post := RestoredPost(start, s, taken);
    OnePostWrite(p, post, wp);
    var mid := WroteAll(p, post, wp);
    PersistEffect(mid, b, u, |u|, wp);
    MetaWritesAll(b, u);
    forall i | 0 <= i < |m|
      ensures u[i].key == m[i].key && u[i].value == Unslash(m[i].value)
    {
      UnslashItemAt(m, i);
    }
    forall i | 0 <= i < |m|
      ensures Kept(b, m[i].key.s, Unslash(m[i].value)) == m[i].value <==> NoBackslash(m[i].value)
    {
      KeptTwice(b, m[i].key.s, m[i].value);
    }
  }

  /** The write that puts the body and the title of the snapshot back. */
  function RestoredPost(start: Page, s: State, taken: bool): seq<Write> {
    if s.content.Some? && taken then [SetPost(StripSlashes(s.content.value), Some(StripSlashes(start.title)))] else []
  }

  lemma MetaWritesAll(b: Builder, m: seq<Item>)
    ensures |MetaWrites(b, m)| == |m| && MetaWrites(b, m)[..|m|] == MetaWrites(b, m)
  {
    hide SlashMeta;
  }

  lemma OnePostWrite(p: Page, post: seq<Write>, wp: Wp)
    requires |post| <= 1 && (post != [] ==> post[0].SetPost?)
    ensures var q := WroteAll(p, post, wp);
            && q == p.(content := q.content, title := q.title)
            && (post == [] ==> q == p)
            && (post != [] ==> q == Wrote(p, post[0], wp))
  {
    if post != [] {
      assert post[1..] == [];
    }
  }

  /** Backed up and persisted again, a value is back exactly if it has no backslash, Elementor or not. */
  lemma KeptTwice(b: Builder, key: string, v: Node)
    ensures Kept(b, key, Unslash(v)) == v <==> NoBackslash(v)
  {
    PersistKeeps(b, key, Unslash(v));
    UnslashFixed(v);
    UnslashTwice(v);
  }

  /** Body and title after the revert; the appended blocks and the snapshot are gone, SEO fields stay. */
  lemma RevertedRest(p: Page, start: Page, b: Builder, id: string, taken: bool, cut: nat, wp: Wp)
    requires p.backup == Some(UnslashBackup(BackupOf(start, b, id))) && RevertCompletes(p, taken, cut)
    ensures var q := Revert(p, taken, cut, wp);
            && (if InContent(b) && taken then q.content == wp.Field(StripSlashes(start.content))
                                     && q.title == wp.Field(StripSlashes(start.title))
                else q.content == p.content && q.title == p.title)
            && q.appended == [] && q.backup.None? && q.seo == p.seo && q.staged == p.staged
  {
    hide WroteAll, MetaWrites, Unslash, UnslashItems, GetMeta, Revert, RevertCompletes;
    var s := Read(b, PostOf(start));
    var u := UnslashItems(s.meta);
    ReadNamed(b, PostOf(start));
    assert s.content == (if InContent(b) then Some(start.content) else None);
    hide Read;
    RevertInSteps(p, p.backup.value, taken, cut, wp);
    var post := RestoredPost(start, s, taken);
    OnePostWrite(p, post, wp);
    PersistEffect(WroteAll(p, post, wp), b, u, |u|, wp);
    MetaWritesAll(b, u);
  }

  /**
   * Can the snapshot of `start` be put back exactly on page `p`?  There may be no backslash in
   * what the builder keeps, the filters must leave the body as it is, and Oxygen, which only
   * reads the keys that are filled, must not have gained one.
   */
  predicate Restorable(b: Builder, start: Page, p: Page, wp: Wp) {
    if InContent(b) then '\\' !in start.content && wp.filter(start.content) == start.content
    else
      && NoBackslashItems(Read(b, PostOf(start)).meta)
      && (b.OxygenBuilder? ==> forall k :: k in {JSON_META, SHORT_META} && AsString(GetMeta(start.meta, k)) == ""
                                 ==> AsString(GetMeta(p.meta, k)) == "")
  }

  lemma ReadAgain(b: Builder, start: Page, p: Page, q: Page, wp: Wp)
    requires var m := Read(b, PostOf(start)).meta;
             && NamedDistinct(m)
             && (forall i :: 0 <= i < |m| ==>
                   m[i].key.s in q.meta && (q.meta[m[i].key.s] == m[i].value <==> NoBackslash(m[i].value)))
             && (forall i :: 0 <= i < |m| ==> q.meta[m[i].key.s] == Kept(b, m[i].key.s, Unslash(m[i].value)))
             && (forall k :: (forall i :: 0 <= i < |m| ==> m[i].key.s != k) ==>
                  GetMeta(q.meta, k) == GetMeta(p.meta, k))
    requires !InContent(b)
    ensures Read(b, PostOf(q)) == Read(b, PostOf(start)) <==> Restorable(b, start, p, wp)
  {
    var m := Read(b, PostOf(start)).meta;
    NoBackslashItemAt(m);
    if b.OxygenBuilder? {
      ReadOxygenAgain(start, p, q, wp);
    } else {
      hide NoBackslash;
      assert m[0].value.Str? ==> q.meta[m[0].key.s].Str?;
    }
  }

  lemma ReadOxygenAgain(start: Page, p: Page, q: Page, wp: Wp)
    requires var m := Read(OxygenBuilder, PostOf(start)).meta;
             && NamedDistinct(m)
             && (forall i :: 0 <= i < |m| ==>
                   m[i].key.s in q.meta && (q.meta[m[i].key.s] == m[i].value <==> NoBackslash(m[i].value)))
             && (forall i :: 0 <= i < |m| ==>
                  q.meta[m[i].key.s] == Kept(OxygenBuilder, m[i].key.s, Unslash(m[i].value)))
             && (forall k :: (forall i :: 0 <= i < |m| ==> m[i].key.s != k) ==>
                  GetMeta(q.meta, k) == GetMeta(p.meta, k))
    ensures Read(OxygenBuilder, PostOf(q)) == Read(OxygenBuilder, PostOf(start))
            <==> Restorable(OxygenBuilder, start, p, wp)
  {
    OxygenReads(PostOf(start), PostOf(q));
    OxygenMeta(PostOf(start));
    OxygenField(start, p, q, JSON_META);
    OxygenField(start, p, q, SHORT_META);
    hide Read, NoBackslash, NoBackslashItems, Kept, AsString, GetMeta, Field;
  }

  /** One field: back as it was, or still empty. */
  lemma OxygenField(start: Page, p: Page, q: Page, k: string)
    requires k in {JSON_META, SHORT_META}
    requires var m := Read(OxygenBuilder, PostOf(start)).meta;
             && (forall i :: 0 <= i < |m| ==>
                   m[i].key.Name? && m[i].key.s in q.meta
                   && (q.meta[m[i].key.s] == m[i].value <==> NoBackslash(m[i].value))
                   && q.meta[m[i].key.s] == Kept(OxygenBuilder, m[i].key.s, Unslash(m[i].value)))
             && (forall k :: (forall i :: 0 <= i < |m| ==> m[i].key != Name(k)) ==>
                  GetMeta(q.meta, k) == GetMeta(p.meta, k))
    ensures AsString(GetMeta(q.meta, k)) == AsString(GetMeta(start.meta, k))
            <==> if Filled(PostOf(start), k) then NoBackslash(Field(PostOf(start), k).value)
                 else AsString(GetMeta(p.meta, k)) == ""
  {
    var m := Read(OxygenBuilder, PostOf(start)).meta;
    OxygenMeta(PostOf(start));
    hide Read, NoBackslash, NoBackslashItems, Unslash, Kept, AsString, GetMeta;
    if Filled(PostOf(start), k) {
      var i :| 0 <= i < |m| && m[i] == Field(PostOf(start), k);
      KeptString(k, m[i].value.s);
      ReadString(q.meta, k);
    } else {
      assert forall i :: 0 <= i < |m| ==> m[i] in m;
    }
  }

  lemma KeptString(key: string, s: string)
    ensures Kept(OxygenBuilder, key, Unslash(Str(s))).Str?
  {
  }

  lemma ReadString(meta: map<string, Node>, k: string)
    requires k in meta && meta[k].Str?
    ensures AsString(GetMeta(meta, k)) == meta[k].s
  {
  }

  /** Oxygen reads the same from two posts exactly when both its fields read the same. */
  lemma OxygenReads(a: Post, b: Post)
    ensures Read(OxygenBuilder, a) == Read(OxygenBuilder, b)
            <==> AsString(GetMeta(a.meta, JSON_META)) == AsString(GetMeta(b.meta, JSON_META))
                 && AsString(GetMeta(a.meta, SHORT_META)) == AsString(GetMeta(b.meta, SHORT_META))
  {
    hide AsString, GetMeta;
    var ma, mb := Read(OxygenBuilder, a).meta, Read(OxygenBuilder, b).meta;
    if ma == mb {
      OxygenMeta(a);
      OxygenMeta(b);
    }
  }

  /** What Oxygen reads for a field. */
  function Field(a: Post, k: string): Item {
    Item(Name(k), Str(AsString(GetMeta(a.meta, k))))
  }

  predicate Filled(a: Post, k: string) {
    k in {JSON_META, SHORT_META} && AsString(GetMeta(a.meta, k)) != ""
  }

  /** The filled fields, and only those, are what it reads. */
  lemma OxygenMeta(a: Post)
    ensures var m := Read(OxygenBuilder, a).meta;
            && (forall k :: Filled(a, k) ==> Field(a, k) in m)
            && (forall item :: item in m ==> item.key.Name? && Filled(a, item.key.s) && item == Field(a, item.key.s))
            && (NoBackslashItems(m)
                <==> (Filled(a, JSON_META) ==> NoBackslash(Field(a, JSON_META).value))
                     && (Filled(a, SHORT_META) ==> NoBackslash(Field(a, SHORT_META).value)))
  {
    hide AsString, GetMeta;
    var m := Read(OxygenBuilder, a).meta;
    NoBackslashItemAt(m);
    var json, short := AsString(GetMeta(a.meta, JSON_META)), AsString(GetMeta(a.meta, SHORT_META));
    if json != "" { assert m[0] == Item(Name(JSON_META), Str(json)); }
    if short != "" { assert m[|m| - 1] == Item(Name(SHORT_META), Str(short)); }
  }

  /**
   * Undo over whole runs.  Take any history of publish attempts and reverts, each dying anywhere
   * or running to its end, of stagings and outside edits, and let `h[f]` be the first attempt of
   * the last block.  A revert that completes at the end puts back the builder state that was read
   * just before `h[f]`, if and only if that state can be put back at all.  If the post update of
   * the revert is refused, the body is what it was.
   */
  lemma UndoOverRuns(p: Page, h: seq<Event>, f: nat, taken: bool, cut: nat, wp: Wp)
    requires f < |h| && h[f].Attempt? && Effective(After(p, h[..f], wp), h[f], wp)
    requires InContent(ChangeOf(After(p, h[..f], wp), h[f].req, wp).value.builder) ==> AddsNoBackslash(wp)
    requires StartsBlock(p, h, f, wp) && BlockRunsOn(p, h, f, wp) && PlainIds(h)
    requires RevertCompletes(After(p, h, wp), taken, cut)
    ensures var start, end := After(p, h[..f], wp), After(p, h, wp);
            var b, undone := ChangeOf(start, h[f].req, wp).value.builder, Revert(end, taken, cut, wp);
            && (Read(b, PostOf(undone)) == Read(b, PostOf(start))
                <==> if InContent(b) && !taken then end.content == start.content else Restorable(b, start, end, wp))
            && undone.appended == [] && undone.backup.None?
  {
    var start, end := After(p, h[..f], wp), After(p, h, wp);
    var b := ChangeOf(start, h[f].req, wp).value.builder;
    hide After, BackupOf, StartsBlock, BlockRunsOn, ChangeOf, UnslashBackup, Revert, RevertCompletes, Restorable,
         Read, AddsNoBackslash;
    assert h[..|h|] == h;
    BlockKeepsSnapshot(p, h, f, |h|, wp);
    var undone := Revert(end, taken, cut, wp);
    RevertedMeta(end, start, b, h[f].req.id, taken, cut, wp);
    RevertedRest(end, start, b, h[f].req.id, taken, cut, wp);
    if InContent(b) {
      if taken {
        ReadContent(b, start, end, undone, wp);
      } else {
        ReadBody(b, start, undone);
      }
    } else {
      ReadAgain(b, start, end, undone, wp);
    }
  }

  /** At the end of a block the snapshot is there, so that a revert can complete. */
  lemma SnapshotIsThere(p: Page, h: seq<Event>, f: nat, wp: Wp)
    requires f < |h| && h[f].Attempt? && Effective(After(p, h[..f], wp), h[f], wp)
    requires StartsBlock(p, h, f, wp) && BlockRunsOn(p, h, f, wp) && PlainIds(h)
    ensures After(p, h, wp).backup.Some?
  {
    hide After, BackupOf, StartsBlock, BlockRunsOn, ChangeOf, UnslashBackup;
    assert h[..|h|] == h;
    BlockKeepsSnapshot(p, h, f, |h|, wp);
  }

  lemma ReadBody(b: Builder, start: Page, q: Page)
    requires InContent(b)
    ensures Read(b, PostOf(q)) == Read(b, PostOf(start)) <==> q.content == start.content
  {
  }

  lemma ReadContent(b: Builder, start: Page, p: Page, q: Page, wp: Wp)
    requires AddsNoBackslash(wp)
    requires InContent(b) && q.content == wp.Field(StripSlashes(start.content))
    ensures Read(b, PostOf(q)) == Read(b, PostOf(start)) <==> Restorable(b, start, p, wp)
  {
    FilteredIsKept(start.content, StripSlashes(StripSlashes(start.content)), wp.filter);
  }

  /* ----- the first attempt of the last block is well defined ----- */

  lemma {:induction false} NoTouchSince(p: Page, h: seq<Event>, f: nat, k: nat, wp: Wp)
    requires f <= |h| && LastTouch(p, h, f, wp) < k < f
    ensures !Touches(After(p, h[..k], wp), h[k], wp)
  {
    hide After, Touches;
    if k < f - 1 {
      NoTouchSince(p, h, f - 1, k, wp);
    }
  }

  lemma {:induction false} TouchedBefore(p: Page, h: seq<Event>, f: nat, k: nat, wp: Wp)
    requires k < f <= |h| && Touches(After(p, h[..k], wp), h[k], wp)
    ensures LastTouch(p, h, f, wp) >= k
  {
    hide After, Touches;
    if k < f - 1 {
      TouchedBefore(p, h, f - 1, k, wp);
    }
  }

  /** A page without a snapshot, an effective attempt, and no revert after it. */
  ghost predicate Pending(p: Page, h: seq<Event>, e: nat, wp: Wp) {
    && p.backup.None? && e < |h| && Effective(After(p, h[..e], wp), h[e], wp)
    && forall k :: e < k < |h| ==> !Forgets(After(p, h[..k], wp), h[k])
  }

  /** `h[f]` is the first attempt of the last block. */
  ghost predicate LastBlock(p: Page, h: seq<Event>, f: nat, wp: Wp) {
    && f < |h| && h[f].Attempt? && Effective(After(p, h[..f], wp), h[f], wp)
    && StartsBlock(p, h, f, wp) && BlockRunsOn(p, h, f, wp)
  }

  lemma {:induction false} FirstOfBlock(p: Page, h: seq<Event>, e: nat, wp: Wp) returns (f: nat)
    requires Pending(p, h, e, wp) && BlockRunsOn(p, h, e, wp)
    ensures LastBlock(p, h, f, wp)
    decreases e
  {
    assert h[e].Attempt?;
    hide After, Effective;
    if StartsBlock(p, h, e, wp) {
      f := e;
    } else {
      var g := LastTouch(p, h, e, wp);
      LastTouchTouches(p, h, e, wp);
      EarlierRunsOn(p, h, g, e, wp);
      f := FirstOfBlock(p, h, g, wp);
    }
  }

  lemma EarlierRunsOn(p: Page, h: seq<Event>, g: nat, e: nat, wp: Wp)
    requires g < e < |h| && h[g].Attempt? && h[e].Attempt? && h[g].req.id == h[e].req.id != ""
    requires LastTouch(p, h, e, wp) == g && BlockRunsOn(p, h, e, wp)
    ensures BlockRunsOn(p, h, g, wp)
  {
    hide After, Effective, LastTouch;
    forall k | g < k < e
      ensures !Forgets(After(p, h[..k], wp), h[k]) && !Effective(After(p, h[..k], wp), h[k], wp)
    {
      NoTouchSince(p, h, e, k, wp);
    }
  }

  lemma {:induction false} SomeBlock(p: Page, h: seq<Event>, e: nat, wp: Wp) returns (f: nat)
    requires Pending(p, h, e, wp)
    ensures LastBlock(p, h, f, wp)
    decreases |h| - e
  {
    hide After, LastBlock, StartsBlock;
    if k :| e < k < |h| && Effective(After(p, h[..k], wp), h[k], wp) {
      f := SomeBlock(p, h, k, wp);
    } else {
      assert h[e].Attempt?;
      hide Effective;
      f := FirstOfBlock(p, h, e, wp);
    }
  }

  lemma OneBlock(p: Page, h: seq<Event>, f: nat, g: nat, wp: Wp)
    requires LastBlock(p, h, f, wp) && LastBlock(p, h, g, wp)
    ensures f == g
  {
    if f < g {
      LaterStartsNone(p, h, f, g, wp);
    } else if g < f {
      LaterStartsNone(p, h, g, f, wp);
    }
  }

  lemma LaterStartsNone(p: Page, h: seq<Event>, f: nat, g: nat, wp: Wp)
    requires LastBlock(p, h, f, wp) && f < g < |h| && h[g].Attempt? && Effective(After(p, h[..g], wp), h[g], wp)
    ensures !StartsBlock(p, h, g, wp)
  {
    hide After, StartsBlock, Effective;
    TouchedBefore(p, h, g, f, wp);
    LastTouchTouches(p, h, g, wp);
    var l := LastTouch(p, h, g, wp);
    EffectiveIsAttempt(After(p, h[..l], wp), h[l], wp);
    BlockNotStarted(p, h, g, wp);
  }

  lemma EffectiveIsAttempt(p: Page, e: Event, wp: Wp)
    ensures Effective(p, e, wp) ==> e.Attempt?
  {
    hide ChangeOf;
  }

  lemma BlockNotStarted(p: Page, h: seq<Event>, g: nat, wp: Wp)
    requires g < |h| && h[g].Attempt? && h[g].req.id != "" && LastTouch(p, h, g, wp) >= 0
    requires var l := LastTouch(p, h, g, wp); h[l].Attempt? && h[l].req.id == h[g].req.id
    ensures !StartsBlock(p, h, g, wp)
  {
  }

  /**
   * Every history on a page without a snapshot, with an effective attempt since the last revert,
   * has exactly one last block; so `UndoOverRuns` says what any such history is undone to.
   */
  lemma LastBlockIsUnique(p: Page, h: seq<Event>, e: nat, wp: Wp) returns (f: nat)
    requires Pending(p, h, e, wp)
    ensures LastBlock(p, h, f, wp) && forall g :: LastBlock(p, h, g, wp) ==> g == f
  {
    hide LastBlock, Pending;
    f := SomeBlock(p, h, e, wp);
    forall g | LastBlock(p, h, g, wp)
      ensures g == f
    {
      OneBlock(p, h, f, g, wp);
    }
  }

  /* ----- pages that cannot be undone ----- */

  lemma EscapesAreNotRestorable(start: Page, p: Page, wp: Wp)
    requires '\\' in AsString(GetMeta(start.meta, ELEMENTOR_META))
    ensures !Restorable(Elementor, start, p, wp)
  {
    hide AsString, GetMeta;
    var m := Read(Elementor, PostOf(start)).meta;
    assert m[0].value == Str(AsString(GetMeta(start.meta, ELEMENTOR_META)));
    NoBackslashItemAt(m);
  }

  /**
   * No history brings back an Elementor page with an escape in its JSON, such as the quotes of
   * any attribute in its text: after the revert its builder state is another one.
   */
  lemma ElementorNeverRestored(p: Page, h: seq<Event>, f: nat, taken: bool, cut: nat, wp: Wp)
    requires f < |h| && h[f].Attempt? && Effective(After(p, h[..f], wp), h[f], wp)
    requires StartsBlock(p, h, f, wp) && BlockRunsOn(p, h, f, wp) && PlainIds(h)
    requires RevertCompletes(After(p, h, wp), taken, cut)
    requires ChangeOf(After(p, h[..f], wp), h[f].req, wp).value.builder.Elementor?
    requires '\\' in AsString(GetMeta(After(p, h[..f], wp).meta, ELEMENTOR_META))
    ensures Read(Elementor, PostOf(Revert(After(p, h, wp), taken, cut, wp)))
            != Read(Elementor, PostOf(After(p, h[..f], wp)))
  {
    hide After, Effective, StartsBlock, BlockRunsOn, PlainIds, ChangeOf, Revert, RevertCompletes, Restorable,
         Read, AsString, GetMeta;
    EscapesAreNotRestorable(After(p, h[..f], wp), After(p, h, wp), wp);
    UndoOverRuns(p, h, f, taken, cut, wp);
  }

  /** An Elementor page whose text holds a quote. */
  function QuotedPage(): Page {
    Page("", "t",
         map["_elementor_edit_mode" := Str("builder"), ELEMENTOR_META := Str("[\"a\\\"b\"]")],
         map[], [], None, None)
  }

  const EMPTY_PATCH := ContentPatch(None, None, None, None, map[])

  /** Even a publish that changes nothing, cut off wherever after its first write, cannot be undone on it. */
  lemma QuotedPageIsLost(req: Request, cut: nat, taken: bool, wp: Wp)
    requires req.patch == EMPTY_PATCH && '\\' !in req.id && cut > 0
    ensures ForPost(PostOf(QuotedPage())).Elementor?
    ensures var q := Publish(QuotedPage(), req, cut, wp);
            && q.backup.Some?
            && Read(Elementor, PostOf(Revert(q, taken, |RevertWrites(q.backup.value, taken)|, wp)))
               != Read(Elementor, PostOf(QuotedPage()))
  {
    hide Publish, Revert, RevertWrites, Read;
    var p, h := QuotedPage(), [Attempt(req, cut)];
    QuotedIsElementor();
    assert h[..0] == [] && After(p, [], wp) == p && After(p, h, wp) == Publish(p, req, cut, wp);
    assert AsString(GetMeta(p.meta, ELEMENTOR_META))[3] == '\\';
    NothingComputed(p, req, wp);
    hide After;
    SnapshotIsThere(p, h, 0, wp);
    ElementorNeverRestored(p, h, 0, taken, |RevertWrites(After(p, h, wp).backup.value, taken)|, wp);
  }

  lemma QuotedIsElementor()
    ensures ForPost(PostOf(QuotedPage())).Elementor?
  {
    assert ORDER[0] == Elementor;
  }

  lemma NothingComputed(p: Page, req: Request, wp: Wp)
    requires p.staged.None? && req.patch == EMPTY_PATCH
    ensures ChangeOf(p, req, wp).Some? && ChangeOf(p, req, wp).value.builder == ForPost(PostOf(p))
  {
    hide ForPost, Read;
  }
}
