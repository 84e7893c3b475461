/** Redoing an interrupted publish: the staged change ends up on the page once, as if nothing had died. */
module CrashRedo {
  import opened Php
  import opened Tree
  import opened Slashes
  import opened Builders
  import opened Patch
  import opened Store
  import opened Undo
  import opened Publishing

  /* ----- writes that do not disturb each other ----- */

  function Class(w: Write): nat {
    match w
    case SetBackup(_) => 0
    case SetPost(_, _) => 1
    case SetTitle(_) => 1
    case SetMeta(_, _) => 2
    case PutBlock(_, _) => 3
    case SetSeo(_) => 4
    case ClearStaged => 5
    case DropBlocks => 3
    case DropBackup => 0
  }

  /** The two writes go to different places. */
  predicate Apart(v: Write, w: Write) {
    Class(v) != Class(w) || (v.SetMeta? && w.SetMeta? && MetaKey(v.key) != MetaKey(w.key))
  }

  predicate PairwiseApart(ws: seq<Write>) {
    forall i, j :: 0 <= i < j < |ws| ==> Apart(ws[j], ws[i])
  }

  /* ----- rewriting the blocks ----- */

  /** No block but the one under `k` still has a backslash after it has been through the store. */
  predicate Calm(blocks: seq<Item>, k: Key) {
    forall i :: 0 <= i < |blocks| && i != IndexOf(blocks, k) ==> NoBackslash(Unslash(blocks[i].value))
  }

  /** Record a block: the whole list goes through the store. */
  function Put(blocks: seq<Item>, k: Key, html: string): seq<Item> {
    UnslashItems(Assign(blocks, k, Str(html)))
  }

  lemma UnslashKeys(m: seq<Item>, k: Key)
    ensures IndexOf(UnslashItems(m), k) == IndexOf(m, k)
  {
    hide Unslash, UnslashItems;
    var u := UnslashItems(m);
    forall i | 0 <= i < |m|
      ensures u[i].key == m[i].key
    {
      UnslashItemAt(m, i);
    }
    SameKeys(m, u, k);
  }

  lemma SameKeys(m: seq<Item>, u: seq<Item>, k: Key)
    requires |m| == |u| && forall i :: 0 <= i < |m| ==> u[i].key == m[i].key
    ensures IndexOf(u, k) == IndexOf(m, k)
  {
    var i, j := IndexOf(m, k), IndexOf(u, k);
    if i != -1 { assert u[i].key == k; }
    if j != -1 { assert m[j].key == k; }
  }

  /** The recorded list, entry by entry. */
  lemma PutAt(m: seq<Item>, k: Key, html: string)
    ensures var q, i := Put(m, k, html), IndexOf(m, k);
            var at := if i == -1 then |m| else i;
            && |q| == (if i == -1 then |m| + 1 else |m|)
            && IndexOf(q, k) == at
            && q[at] == Item(k, Str(StripSlashes(html)))
            && forall j :: 0 <= j < |m| && j != at ==> q[j] == Item(m[j].key, Unslash(m[j].value))
  {
    hide UnslashItems;
    var a, i := Assign(m, k, Str(html)), IndexOf(m, k);
    var at := if i == -1 then |m| else i;
    UnslashKeys(a, k);
    if i == -1 {
      IndexOfConcat(m, [Item(k, Str(html))], k);
    } else {
      IndexOfUpdate(m, i, Str(html), k);
    }
    UnslashItemAt(a, at);
    forall j | 0 <= j < |m| && j != at
      ensures Put(m, k, html)[j] == Item(m[j].key, Unslash(m[j].value))
    {
      UnslashItemAt(a, j);
    }
  }

  /** Recording the same block again changes nothing exactly if the other blocks have settled. */
  lemma PutAgain(m: seq<Item>, k: Key, html: string)
    ensures Put(Put(m, k, html), k, html) == Put(m, k, html) <==> Calm(m, k)
    ensures Calm(m, k) ==> Calm(Put(m, k, html), k)
  {
    hide Put, Unslash, NoBackslash, IndexOf;
    var q := Put(m, k, html);
    var r := Put(q, k, html);
    PutAt(m, k, html);
    PutAt(q, k, html);
    forall j | 0 <= j < |m| && j != IndexOf(m, k)
      ensures r[j] == q[j] <==> NoBackslash(Unslash(m[j].value))
      ensures NoBackslash(Unslash(m[j].value)) ==> NoBackslash(Unslash(q[j].value))
    {
      UnslashFixed(Unslash(m[j].value));
    }
  }

  /* ----- writing twice ----- */

  /** Writing the same thing twice is writing it once. */
  lemma WriteSettles(p: Page, w: Write, wp: Wp)
    requires w.PutBlock? ==> Calm(p.appended, w.block)
    ensures Wrote(Wrote(p, w, wp), w, wp) == Wrote(p, w, wp)
  {
    hide UnslashBackup, Unslash, UnslashItems, Assign, Calm;
    if w.PutBlock? {
      PutAgain(p.appended, w.block, w.html);
    }
  }

  /** A write that is in effect stays in effect through a write to another place. */
  lemma StaysSettled(p: Page, v: Write, w: Write, wp: Wp)
    requires Wrote(p, w, wp) == p && Apart(v, w)
    ensures Wrote(Wrote(p, v, wp), w, wp) == Wrote(p, v, wp)
  {
    hide UnslashBackup, Unslash, UnslashItems, Assign;
  }

  lemma {:induction false} AllStaySettled(p: Page, vs: seq<Write>, w: Write, wp: Wp)
    requires Wrote(p, w, wp) == p && forall i :: 0 <= i < |vs| ==> Apart(vs[i], w)
    ensures Wrote(WroteAll(p, vs, wp), w, wp) == WroteAll(p, vs, wp)
    decreases |vs|
  {
    if vs == [] {
    } else {
      hide Wrote, Apart;
      StaysSettled(p, vs[0], w, wp);
      AllStaySettled(Wrote(p, vs[0], wp), vs[1..], w, wp);
    }
  }

  predicate PutsCalmly(blocks: seq<Item>, ws: seq<Write>) {
    forall i :: 0 <= i < |ws| && ws[i].PutBlock? ==> Calm(blocks, ws[i].block)
  }

  /** After a block is recorded the rest of the writes records none; other writes leave the blocks alone. */
  lemma RestPutsCalmly(p: Page, ws: seq<Write>, wp: Wp)
    requires ws != [] && PairwiseApart(ws) && PutsCalmly(p.appended, ws)
    ensures PairwiseApart(ws[1..]) && PutsCalmly(Wrote(p, ws[0], wp).appended, ws[1..])
  {
    hide Calm, UnslashItems, Assign, UnslashBackup, Unslash;
    forall i | 0 <= i < |ws| - 1 && ws[1..][i].PutBlock?
      ensures Calm(Wrote(p, ws[0], wp).appended, ws[1..][i].block)
    {
      assert Apart(ws[i + 1], ws[0]);
    }
  }

  /** Redoing all the writes after some of them is doing them once. */
  lemma {:induction false} Absorb(p: Page, ws: seq<Write>, k: nat, wp: Wp)
    requires k <= |ws| && PairwiseApart(ws) && PutsCalmly(p.appended, ws)
    ensures WroteAll(WroteAll(p, ws[..k], wp), ws, wp) == WroteAll(p, ws, wp)
    decreases |ws|
  {
    if k == 0 {
      assert ws[..0] == [] && WroteAll(p, [], wp) == p;
    } else {
      hide Wrote, Apart, Calm;
      var w, rest := ws[0], ws[1..];
      var q := Wrote(p, w, wp);
      assert ws[..k][1..] == rest[..k - 1] && ws[..k][0] == w;
      var x := WroteAll(q, rest[..k - 1], wp);
      assert WroteAll(p, ws[..k], wp) == x;
      WriteSettles(p, w, wp);
      RestPutsCalmly(p, ws, wp);
      AllStaySettled(q, rest[..k - 1], w, wp);
      Absorb(q, rest, k - 1, wp);
    }
  }

  /* ----- an update of the post that is refused the first time ----- */

  /** An update of the post and a write to another place commute. */
  lemma {:induction false} PostCommutes(p: Page, vs: seq<Write>, w: Write, wp: Wp)
    requires Class(w) == 1 && forall i :: 0 <= i < |vs| ==> Class(vs[i]) != 1
    ensures Wrote(WroteAll(p, vs, wp), w, wp) == WroteAll(Wrote(p, w, wp), vs, wp)
    decreases |vs|
  {
    if vs == [] {
    } else {
      hide UnslashBackup, Unslash, UnslashItems, Assign;
      assert Wrote(Wrote(p, vs[0], wp), w, wp) == Wrote(Wrote(p, w, wp), vs[0], wp);
      hide Wrote;
      PostCommutes(Wrote(p, vs[0], wp), vs[1..], w, wp);
    }
  }

  lemma PostAlone(p: Page, w: Write, wp: Wp)
    requires Class(w) == 1
    ensures Wrote(p, w, wp).appended == p.appended
  {
  }

  /** An update of the post and the writes after it, some of these done before it. */
  lemma RefusedPart(p: Page, w: Write, ws: seq<Write>, cut: nat, wp: Wp)
    requires Class(w) == 1 && cut <= |ws| && PairwiseApart(ws) && PutsCalmly(p.appended, ws)
    requires forall i :: 0 <= i < |ws| ==> Class(ws[i]) != 1
    ensures WroteAll(WroteAll(p, ws[..cut], wp), [w] + ws, wp) == WroteAll(p, [w] + ws, wp)
  {
    hide Wrote, PairwiseApart, PutsCalmly, Class;
    assert ([w] + ws)[1..] == ws;
    assert forall i :: 0 <= i < cut ==> ws[..cut][i] == ws[i];
    PostCommutes(p, ws[..cut], w, wp);
    PostAlone(p, w, wp);
    Absorb(Wrote(p, w, wp), ws, cut, wp);
  }

  /* ----- the writes of one publish ----- */

  lemma ApartConcat(a: seq<Write>, b: seq<Write>)
    requires PairwiseApart(a) && PairwiseApart(b)
    requires forall i, j :: 0 <= i < |a| && 0 <= j < |b| ==> Class(a[i]) < Class(b[j])
    ensures PairwiseApart(a + b)
  {
    var c := a + b;
    forall i, j | 0 <= i < j < |c|
      ensures Apart(c[j], c[i])
    {
      if j < |a| {
        assert c[i] == a[i] && c[j] == a[j];
      } else if i < |a| {
        assert c[i] == a[i] && c[j] == b[j - |a|];
      } else {
        assert c[i] == b[i - |a|] && c[j] == b[j - |a|];
      }
    }
  }

  lemma MetaWritesApart(b: Builder, m: seq<Item>)
    requires NamedDistinct(m)
    ensures PairwiseApart(MetaWrites(b, m))
    ensures forall i :: 0 <= i < |m| ==> MetaWrites(b, m)[i].SetMeta?
  {
    hide SlashMeta;
    var ws := MetaWrites(b, m);
    forall i, j | 0 <= i < j < |ws|
      ensures Apart(ws[j], ws[i])
    {
      assert m[i].key != m[j].key;
    }
  }

  lemma OneBlockWrite(id: string, htmls: seq<string>)
    requires |htmls| <= 1
    ensures PairwiseApart(BlockWrites(id, htmls))
    ensures forall i :: 0 <= i < |htmls| ==> BlockWrites(id, htmls)[i] == PutBlock(BlockKey(id, 0), htmls[0])
  {
    hide BlockKey;
  }

  lemma ChangeWritesApart(c: Change, id: string)
    requires NamedDistinct(c.state.meta) && |c.appended| <= 1
    ensures PairwiseApart(ChangeWrites(c, id))
    ensures forall i :: 0 <= i < |ChangeWrites(c, id)| && ChangeWrites(c, id)[i].PutBlock? ==>
              c.appended != [] && ChangeWrites(c, id)[i] == PutBlock(BlockKey(id, 0), c.appended[0])
  {
    var post, metas := PostWrites(c.state, c.patch.title, c.titleTaken), MetaWrites(c.builder, c.state.meta);
    var blocks, end := BlockWrites(id, c.appended), [SetSeo(c.patch.seo), ClearStaged];
    MetaWritesApart(c.builder, c.state.meta);
    OneBlockWrite(id, c.appended);
    hide BlockWrites, MetaWrites, Apart, BlockKey;
    assert PairwiseApart(post);
    assert forall i :: 0 <= i < |post| ==> Class(post[i]) == 1;
    assert forall i :: 0 <= i < |metas| ==> Class(metas[i]) == 2;
    assert forall i :: 0 <= i < |blocks| ==> Class(blocks[i]) == 3;
    ApartConcat(post, metas);
    ApartConcat(post + metas, blocks);
    EndApart(c.patch.seo);
    ApartConcat(post + metas + blocks, end);
  }

  lemma EndApart(seo: map<string, string>)
    ensures PairwiseApart([SetSeo(seo), ClearStaged])
  {
  }

  /* ----- one interrupted attempt, then a full one ----- */

  lemma {:induction false} StagedKept(p: Page, ws: seq<Write>, wp: Wp)
    requires forall i :: 0 <= i < |ws| ==> !ws[i].ClearStaged?
    ensures WroteAll(p, ws, wp).staged == p.staged
    decreases |ws|
  {
    if ws == [] {
    } else {
      StagedKept(Wrote(p, ws[0], wp), ws[1..], wp);
    }
  }

  /** Blocks that have settled stay so. */
  lemma {:induction false} CalmKept(p: Page, ws: seq<Write>, key: Key, wp: Wp)
    requires Calm(p.appended, key) && forall i :: 0 <= i < |ws| && ws[i].PutBlock? ==> ws[i].block == key
    ensures Calm(WroteAll(p, ws, wp).appended, key)
    decreases |ws|
  {
    if ws == [] {
    } else {
      hide Calm, UnslashItems, Assign, UnslashBackup, Unslash;
      if ws[0].PutBlock? {
        PutAgain(p.appended, key, ws[0].html);
      }
      CalmKept(Wrote(p, ws[0], wp), ws[1..], key, wp);
    }
  }

  lemma {:induction false} BlocksKept(p: Page, ws: seq<Write>, wp: Wp)
    requires forall i :: 0 <= i < |ws| ==> !ws[i].PutBlock? && !ws[i].DropBlocks?
    ensures WroteAll(p, ws, wp).appended == p.appended
    decreases |ws|
  {
    if ws == [] {
    } else {
      BlocksKept(Wrote(p, ws[0], wp), ws[1..], wp);
    }
  }

  lemma ClearsLast(c: Change, id: string)
    ensures var ws := ChangeWrites(c, id);
            |ws| > 0 && forall i :: 0 <= i < |ws| - 1 ==> !ws[i].ClearStaged?
  {
    hide SlashMeta, BlockKey;
  }

  /** A record that staging made, and if it has a block, the blocks already on the page have settled. */
  predicate Ready(p: Page, r: Staged, id: string) {
    p.staged == Some(r) && FromStaging(r) && (r.appended != [] ==> Calm(p.appended, BlockKey(id, 0)))
  }

  /** From `q` a full publish leads where it leads from `p`, with no more writes. */
  predicate LeadsAlike(q: Page, p: Page, r: Staged, full: Request, wp: Wp) {
    && Ready(q, r, full.id)
    && |PublishWrites(q, full, wp)| <= |PublishWrites(p, full, wp)|
    && WroteAll(q, PublishWrites(q, full, wp), wp) == WroteAll(p, PublishWrites(p, full, wp), wp)
  }

  lemma WritesOfStaged(p: Page, r: Staged, req: Request, wp: Wp)
    requires p.staged == Some(r)
    ensures var c := StagedChange(r, req.titleTaken);
            PublishWrites(p, req, wp) == SnapshotWrites(p, c, req.id) + ChangeWrites(c, req.id)
  {
    hide ChangeWrites, SnapshotWrites, Compute;
  }

  /** The writes of a change whose title-only update is taken or refused. */
  lemma TitleFirst(r: Staged, id: string, taken: bool)
    ensures var ws, refused := ChangeWrites(StagedChange(r, taken), id), ChangeWrites(StagedChange(r, false), id);
            ws == if taken && r.state.content.None? && r.patch.title.Some?
                  then [SetTitle(r.patch.title.value)] + refused else refused
  {
    hide MetaWrites, BlockWrites;
    assert [] + MetaWrites(r.builder, r.state.meta) == MetaWrites(r.builder, r.state.meta);
  }

  lemma NoPostUpdate(r: Staged, id: string)
    requires r.state.content.None?
    ensures var ws := ChangeWrites(StagedChange(r, false), id);
            forall i :: 0 <= i < |ws| ==> Class(ws[i]) != 1
  {
    hide SlashMeta, BlockKey;
  }

  /** Any of the writes can be done before all of them are, a title-only update that was refused included. */
  lemma PartlyWritten(base: Page, r: Staged, t: bool, taken: bool, id: string, k: nat, wp: Wp)
    requires Ready(base, r, id) && k < |ChangeWrites(StagedChange(r, t), id)| && (t ==> taken)
    ensures var part, rest := ChangeWrites(StagedChange(r, t), id), ChangeWrites(StagedChange(r, taken), id);
            WroteAll(WroteAll(base, part[..k], wp), rest, wp) == WroteAll(base, rest, wp)
  {
    ChangeWritesApart(StagedChange(r, t), id);
    ChangeWritesApart(StagedChange(r, taken), id);
    TitleFirst(r, id, t);
    TitleFirst(r, id, taken);
    hide ChangeWrites, PairwiseApart, WroteAll, Calm, BlockKey, NamedDistinct;
    var part, rest := ChangeWrites(StagedChange(r, t), id), ChangeWrites(StagedChange(r, taken), id);
    if part == rest {
      Absorb(base, rest, k, wp);
    } else {
      NoPostUpdate(r, id);
      RefusedPart(base, SetTitle(r.patch.title.value), part, k, wp);
    }
  }

  /** Once the snapshot is taken, any of the other writes can be done before all of them are. */
  lemma PartlyDone(base: Page, r: Staged, t: bool, taken: bool, id: string, k: nat, wp: Wp)
    requires Ready(base, r, id) && k < |ChangeWrites(StagedChange(r, t), id)| && (t ==> taken)
    ensures var part, rest := ChangeWrites(StagedChange(r, t), id), ChangeWrites(StagedChange(r, taken), id);
            var q := WroteAll(base, part[..k], wp);
            && Ready(q, r, id) && q.backup == base.backup
            && WroteAll(q, rest, wp) == WroteAll(base, rest, wp)
  {
    var c := StagedChange(r, t);
    var part := ChangeWrites(c, id);
    ChangeWritesApart(c, id);
    ClearsLast(c, id);
    ChangeWritesKind(c, id);
    PartlyWritten(base, r, t, taken, id, k, wp);
    hide ChangeWrites, PairwiseApart, WroteAll, Calm, BlockKey, NamedDistinct;
    StagedKept(base, part[..k], wp);
    if r.appended != [] {
      CalmKept(base, part[..k], BlockKey(id, 0), wp);
    }
    NoBackupWritten(base, part[..k], wp);
  }

  /** An attempt cut off before the staged record is cleared does not change what a full attempt leads to. */
  lemma RedoStep(p: Page, r: Staged, req: Request, cut: nat, full: Request, wp: Wp)
    requires Ready(p, r, full.id)
    requires req.id == full.id != "" && '\\' !in full.id && (req.titleTaken ==> full.titleTaken)
    requires cut < |PublishWrites(p, req, wp)|
    ensures LeadsAlike(Publish(p, req, cut, wp), p, r, full, wp)
  {
    var c, id := StagedChange(r, full.titleTaken), full.id;
    var snap, part := SnapshotWrites(p, c, id), ChangeWrites(StagedChange(r, req.titleTaken), id);
    WritesOfStaged(p, r, req, wp);
    WritesOfStaged(p, r, full, wp);
    SnapshotKeeps(p, c, id, wp);
    assert SnapshotWrites(p, StagedChange(r, req.titleTaken), id) == snap;
    hide ChangeWrites, PublishWrites, UnslashBackup, WroteAll, BackupOf, Calm, BlockKey, NamedDistinct;
    CutConcat(p, snap, part, cut, wp);
    if cut < |snap| {
      assert Cut(snap, cut) == [];
      NothingWrote(p, wp);
    } else {
      RedoAfterSnapshot(p, r, req, cut, full, wp);
    }
  }

  lemma RedoAfterSnapshot(p: Page, r: Staged, req: Request, cut: nat, full: Request, wp: Wp)
    requires Ready(p, r, full.id)
    requires req.id == full.id != "" && '\\' !in full.id && (req.titleTaken ==> full.titleTaken)
    requires |SnapshotWrites(p, StagedChange(r, full.titleTaken), full.id)| <= cut < |PublishWrites(p, req, wp)|
    ensures LeadsAlike(Publish(p, req, cut, wp), p, r, full, wp)
  {
    var c, id := StagedChange(r, full.titleTaken), full.id;
    var snap, rest := SnapshotWrites(p, c, id), ChangeWrites(c, id);
    var part := ChangeWrites(StagedChange(r, req.titleTaken), id);
    WritesOfStaged(p, r, req, wp);
    WritesOfStaged(p, r, full, wp);
    SnapshotKeeps(p, c, id, wp);
    hide ChangeWrites, PublishWrites, UnslashBackup, WroteAll, BackupOf, Calm, BlockKey, NamedDistinct;
    var q := Publish(p, req, cut, wp);
    CutConcat(p, snap, part, cut, wp);
    var k, base := cut - |snap|, WroteAll(p, snap, wp);
    assert Cut(snap, cut) == snap && Cut(part, k) == part[..k];
    PartlyDone(base, r, req.titleTaken, full.titleTaken, id, k, wp);
    WritesOfStaged(q, r, full, wp);
    assert SnapshotWrites(q, c, id) == [] && [] + rest == rest;
    WroteConcat(p, snap, rest, wp);
  }

  lemma SnapshotKeeps(p: Page, c: Change, id: string, wp: Wp)
    requires id != "" && '\\' !in id
    ensures var q := WroteAll(p, SnapshotWrites(p, c, id), wp);
            q == p.(backup := q.backup) && !ShouldSnapshot(q.backup, id)
  {
    hide UnslashState;
    StripFixed(id);
    var ws := SnapshotWrites(p, c, id);
    if ws != [] {
      assert ws[1..] == [];
    }
  }

  /**
   * Attempts of one instruction, each dying before the staged record is cleared.  A title-only
   * update that was taken on the way is also taken in the end.
   */
  predicate CutShort(p: Page, h: seq<Event>, last: Request, wp: Wp) {
    forall k :: 0 <= k < |h| ==>
      && h[k].Attempt? && h[k].req.id == last.id && (h[k].req.titleTaken ==> last.titleTaken)
      && h[k].cut < |PublishWrites(After(p, h[..k], wp), h[k].req, wp)|
  }

  lemma CutShortFront(p: Page, h: seq<Event>, last: Request, wp: Wp)
    requires h != [] && CutShort(p, h, last, wp)
    ensures var front, e := h[..|h| - 1], h[|h| - 1];
            && CutShort(p, front, last, wp)
            && e.Attempt? && e.req.id == last.id && (e.req.titleTaken ==> last.titleTaken)
            && e.cut < |PublishWrites(After(p, front, wp), e.req, wp)|
            && After(p, h, wp) == Publish(After(p, front, wp), e.req, e.cut, wp)
  {
    hide PublishWrites, Publish;
    var front := h[..|h| - 1];
    forall k | 0 <= k < |front|
      ensures h[..k] == front[..k] && front[k] == h[k]
    {
    }
  }

  lemma {:induction false} RedoIsOnce(p: Page, h: seq<Event>, r: Staged, last: Request, wp: Wp)
    requires Ready(p, r, last.id) && last.id != "" && '\\' !in last.id
    requires CutShort(p, h, last, wp)
    ensures LeadsAlike(After(p, h, wp), p, r, last, wp)
  {
    hide Ready, PublishWrites, WroteAll, CutShort, Publish;
    if h == [] {
    } else {
      hide After;
      var front, e := h[..|h| - 1], h[|h| - 1];
      CutShortFront(p, h, last, wp);
      RedoIsOnce(p, front, r, last, wp);
      RedoStep(After(p, front, wp), r, e.req, e.cut, last, wp);
    }
  }

  /**
   * Any number of interrupted attempts followed by one that completes leaves exactly the page
   * that one uninterrupted publish leaves: body, title, meta, SEO fields, blocks and snapshot.
   */
  lemma CrashRedo(p: Page, h: seq<Event>, r: Staged, last: Request, cut: nat, wp: Wp)
    requires Ready(p, r, last.id) && last.id != "" && '\\' !in last.id
    requires CutShort(p, h, last, wp) && cut >= |PublishWrites(p, last, wp)|
    ensures After(p, h + [Attempt(last, cut)], wp) == Publish(p, last, cut, wp)
  {
    hide Ready, PublishWrites, WroteAll, CutShort;
    RedoIsOnce(p, h, r, last, wp);
    var q := After(p, h, wp);
    assert (h + [Attempt(last, cut)])[..|h|] == h;
    assert Cut(PublishWrites(q, last, wp), cut) == PublishWrites(q, last, wp);
    assert Cut(PublishWrites(p, last, wp), cut) == PublishWrites(p, last, wp);
  }

  /* ----- the condition on the blocks is exact ----- */

  /** Dying after the block was recorded leaves the blocks as a completed publish does. */
  lemma RecordedBeforeEnd(p: Page, c: Change, req: Request, cut: nat, wp: Wp)
    requires ChangeOf(p, req, wp) == Some(c) && NamedDistinct(c.state.meta)
    requires |PublishWrites(p, req, wp)| - 2 <= cut < |PublishWrites(p, req, wp)|
    ensures Publish(p, req, cut, wp).appended == Blocks(p.appended, req.id, c.appended)
  {
    hide ChangeOf, WroteAll, Publish, SnapshotWrites, PostWrites, MetaWrites, BlockWrites, Blocks;
    var ws := PublishWrites(p, req, wp);
    var head := SnapshotWrites(p, c, req.id) + (PostWrites(c.state, c.patch.title, c.titleTaken)
                + MetaWrites(c.builder, c.state.meta) + BlockWrites(req.id, c.appended));
    assert ws == head + [SetSeo(c.patch.seo), ClearStaged];
    Completed(p, c, req, |ws|, wp);
    AllWritten(p, req, wp);
    CutWritten(p, req, cut, wp);
    WroteConcat(p, ws[..cut], ws[cut..], wp);
    assert ws == ws[..cut] + ws[cut..];
    BlocksKept(WroteAll(p, ws[..cut], wp), ws[cut..], wp);
  }

  lemma AllWritten(p: Page, req: Request, wp: Wp)
    ensures Publish(p, req, |PublishWrites(p, req, wp)|, wp) == WroteAll(p, PublishWrites(p, req, wp), wp)
  {
    hide PublishWrites, WroteAll;
    var ws := PublishWrites(p, req, wp);
    assert Cut(ws, |ws|) == ws;
  }

  lemma CutWritten(p: Page, req: Request, cut: nat, wp: Wp)
    requires cut <= |PublishWrites(p, req, wp)|
    ensures Publish(p, req, cut, wp) == WroteAll(p, PublishWrites(p, req, wp)[..cut], wp)
  {
    hide PublishWrites, WroteAll;
  }

  /**
   * An attempt that dies after it recorded its block, and then a full one: the page is that of
   * one publish if and only if the other blocks have settled.
   */
  lemma RedoIsExact(p: Page, r: Staged, req: Request, cut: nat, full: nat, wp: Wp)
    requires p.staged == Some(r) && FromStaging(r) && |r.appended| == 1
    requires req.id != "" && '\\' !in req.id
    requires |PublishWrites(p, req, wp)| - 2 <= cut < |PublishWrites(p, req, wp)| < full
    ensures Publish(Publish(p, req, cut, wp), req, full, wp) == Publish(p, req, full, wp)
            <==> Calm(p.appended, BlockKey(req.id, 0))
  {
    var c, key := StagedChange(r, req.titleTaken), BlockKey(req.id, 0);
    var q := Publish(p, req, cut, wp);
    hide Publish, PublishWrites, WroteAll, BlockKey, Calm, NamedDistinct, Persisted, After, Cut;
    RecordedBeforeEnd(p, c, req, cut, wp);
    StagedStays(p, c, req, cut, wp);
    SameWrites(p, q, req, wp);
    Completed(p, c, req, full, wp);
    Completed(q, c, req, full, wp);
    OneBlockPut(p.appended, req.id, r.appended);
    OneBlockPut(q.appended, req.id, r.appended);
    PutAgain(p.appended, key, r.appended[0]);
    if Calm(p.appended, key) {
      RedoStep(p, r, req, cut, req, wp);
      FullFrom(q, p, r, req, full, wp);
    }
  }

  lemma StagedStays(p: Page, c: Change, req: Request, cut: nat, wp: Wp)
    requires ChangeOf(p, req, wp) == Some(c) && cut < |PublishWrites(p, req, wp)|
    ensures Publish(p, req, cut, wp).staged == p.staged
  {
    hide ChangeOf, WroteAll, ChangeWrites;
    CutWritten(p, req, cut, wp);
    ClearsLast(c, req.id);
    StagedKept(p, PublishWrites(p, req, wp)[..cut], wp);
  }

  lemma SameWrites(p: Page, q: Page, req: Request, wp: Wp)
    requires p.staged.Some? && q.staged == p.staged
    ensures |PublishWrites(q, req, wp)| <= |PublishWrites(p, req, wp)| + 1
  {
    hide ChangeWrites, BackupOf;
  }

  lemma FullFrom(q: Page, p: Page, r: Staged, req: Request, full: nat, wp: Wp)
    requires LeadsAlike(q, p, r, req, wp) && full >= |PublishWrites(p, req, wp)|
    ensures Publish(q, req, full, wp) == Publish(p, req, full, wp)
  {
    hide PublishWrites, WroteAll, Ready;
    assert Cut(PublishWrites(q, req, wp), full) == PublishWrites(q, req, wp);
    assert Cut(PublishWrites(p, req, wp), full) == PublishWrites(p, req, wp);
  }

  lemma OneBlockPut(m: seq<Item>, id: string, htmls: seq<string>)
    requires |htmls| == 1
    ensures Blocks(m, id, htmls) == Put(m, BlockKey(id, 0), htmls[0])
  {
    hide BlockKey, Assign, UnslashItems;
    assert htmls[..0] == [];
  }

  /* ----- interrupted reverts ----- */

  lemma RevertWritesApart(b: Backup, taken: bool)
    requires NamedDistinct(b.state.meta)
    ensures var ws := RevertWrites(b, taken);
            && PairwiseApart(ws)
            && (forall i :: 0 <= i < |ws| ==> !ws[i].PutBlock? && (!taken ==> Class(ws[i]) != 1))
  {
    var post := if b.state.content.Some? && taken then [SetPost(b.state.content.value, Some(b.title))] else [];
    var metas, end := MetaWrites(b.builder, b.state.meta), [DropBlocks, DropBackup];
    MetaWritesApart(b.builder, b.state.meta);
    hide MetaWrites, Apart;
    ApartInRevert(post, metas, end);
  }

  lemma ApartInRevert(post: seq<Write>, metas: seq<Write>, end: seq<Write>)
    requires |post| <= 1 && (post != [] ==> post[0].SetPost?)
    requires PairwiseApart(metas) && (forall k :: 0 <= k < |metas| ==> metas[k].SetMeta?)
             && end == [DropBlocks, DropBackup]
    ensures var all := post + metas + end;
            && PairwiseApart(all)
            && (forall i :: 0 <= i < |all| ==> !all[i].PutBlock? && (post == [] ==> Class(all[i]) != 1))
  {
    var all, n, m := post + metas + end, |post|, |post| + |metas|;
    assert forall k :: 0 <= k < |all| ==>
             all[k] == if k < n then post[k] else if k < m then metas[k - n] else end[k - m];
    forall i, j | 0 <= i < j < |all|
      ensures Apart(all[j], all[i])
    {
      if n <= i && j < m {
        assert Apart(metas[j - n], metas[i - n]);
      }
    }
  }

  /** A revert that died, and then all of one: a post update that was taken must be taken again. */
  lemma RevertRedoStep(p: Page, b: Backup, t: bool, cut: nat, taken: bool, wp: Wp)
    requires p.backup == Some(b) && NamedDistinct(b.state.meta)
    requires cut < |RevertWrites(b, t)| && (t ==> taken)
    ensures var q := Revert(p, t, cut, wp);
            q.backup == Some(b)
            && WroteAll(q, RevertWrites(b, taken), wp) == WroteAll(p, RevertWrites(b, taken), wp)
  {
    hide WroteAll, RevertWrites, NamedDistinct, PairwiseApart;
    RevertBackup(p, b, t, cut, wp);
    RevertWritesApart(b, taken);
    RevertWritesApart(b, false);
    var ws, all := RevertWrites(b, t), RevertWrites(b, taken);
    if t == taken || b.state.content.None? {
      SameUntaken(b, t, taken);
      Absorb(p, all, cut, wp);
    } else {
      PostFirst(b);
      RefusedPart(p, SetPost(b.state.content.value, Some(b.title)), ws, cut, wp);
    }
  }

  lemma SameUntaken(b: Backup, t: bool, taken: bool)
    requires t == taken || b.state.content.None?
    ensures RevertWrites(b, t) == RevertWrites(b, taken)
  {
  }

  lemma PostFirst(b: Backup)
    requires b.state.content.Some?
    ensures RevertWrites(b, true) == [SetPost(b.state.content.value, Some(b.title))] + RevertWrites(b, false)
  {
  }

  /** A revert that dies after `cut` writes. */
  datatype Try = Try(taken: bool, cut: nat)

  function Tries(p: Page, tries: seq<Try>, wp: Wp): Page
    decreases |tries|
  {
    if tries == [] then p else Tries(Revert(p, tries[0].taken, tries[0].cut, wp), tries[1..], wp)
  }

  /**
   * Any number of reverts that die before their end, and then a full one, leave the page of one
   * uninterrupted revert: the snapshot goes last.  If a post update was taken on the way, it has
   * to be taken in the end.
   */
  lemma {:induction false} RevertRedo(p: Page, tries: seq<Try>, taken: bool, cut: nat, wp: Wp)
    requires p.backup.Some? && NamedDistinct(p.backup.value.state.meta) && RevertCompletes(p, taken, cut)
    requires forall t :: t in tries ==> !RevertCompletes(p, t.taken, t.cut) && (t.taken ==> taken)
    ensures Tries(p, tries, wp).backup == p.backup
    ensures Revert(Tries(p, tries, wp), taken, cut, wp) == Revert(p, taken, cut, wp)
    decreases |tries|
  {
    hide WroteAll, RevertWrites, NamedDistinct;
    if tries == [] {
    } else {
      var t, b := tries[0], p.backup.value;
      var q := Revert(p, t.taken, t.cut, wp);
      RevertRedoStep(p, b, t.taken, t.cut, taken, wp);
      RevertRedo(q, tries[1..], taken, cut, wp);
      var all := RevertWrites(b, taken);
      assert Cut(all, cut) == all;
    }
  }

  /** The snapshots that a publish takes are such. */
  lemma SnapshotNamed(p: Page, b: Builder, id: string)
    ensures NamedDistinct(UnslashBackup(BackupOf(p, b, id)).state.meta)
  {
    hide Read, UnslashItems, NamedDistinct;
    ReadNamed(b, PostOf(p));
  }

  /* ----- a page on which redoing is not harmless ----- */

  const OTHER_BLOCK := [Item(Name("other-0"), Str("\\\\\\\\"))]

  const ONE_BLOCK := ContentPatch(None, None, Some("x"), None, map[])

  /** A staged block, on a page where another instruction has recorded four backslashes. */
  function CrowdedPage(): Page {
    Page("", "t", map[], map[], OTHER_BLOCK,
         Some(Staged(Beaver, State(None, []), "", ONE_BLOCK, ["x"], "i", "token", 0)), None)
  }

  /** An attempt that dies before its last write, and a full one: the other block has been unslashed twice. */
  lemma RedoTouchesOthers(ids: Ids, titleTaken: bool, wp: Wp)
    ensures var p, req := CrowdedPage(), Request(ONE_BLOCK, "i", ids, titleTaken);
            var n := |PublishWrites(p, req, wp)|;
            n >= 2 && Publish(Publish(p, req, n - 1, wp), req, n + 1, wp) != Publish(p, req, n + 1, wp)
  {
    hide Publish, ChangeWrites, SnapshotWrites, Unslash, Calm, IndexOf;
    var p, req := CrowdedPage(), Request(ONE_BLOCK, "i", ids, titleTaken);
    var c := StagedChange(p.staged.value, titleTaken);
    EndsInTwo(c, "i");
    NotCalm();
    RedoIsExact(p, p.staged.value, req, |PublishWrites(p, req, wp)| - 1, |PublishWrites(p, req, wp)| + 1, wp);
  }

  lemma EndsInTwo(c: Change, id: string)
    ensures |ChangeWrites(c, id)| >= 2
  {
    hide PostWrites, MetaWrites, BlockWrites;
  }

  lemma NotCalm()
    ensures !Calm(OTHER_BLOCK, BlockKey("i", 0))
  {
    var k := BlockKey("i", 0);
    assert OTHER_BLOCK[0].key.s[0] == 'o' && k.s[0] == 'i';
    assert IndexOf(OTHER_BLOCK, k) == -1;
    var twice := "\\\\";
    assert "\\\\\\\\"[2..] == twice && twice[2..] == "";
    assert Unslash(OTHER_BLOCK[0].value) == Str(StripSlashes("\\\\\\\\"));
    assert StripSlashes("") == "" && StripSlashes(twice) == "\\";
    assert StripSlashes("\\\\\\\\") == "\\\\";
    assert twice[0] == '\\';
  }
}
