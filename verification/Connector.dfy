/** The connector's operations, as they update the stored page step by step. */
module Connector {
  import opened Php
  import opened Tree
  import opened Slashes
  import opened Builders
  import opened Patch
  import opened Store

  class Site {
    var content: string
    var title: string
    var meta: map<string, Node>
    var seo: map<string, string>
    var appended: seq<Item>
    var staged: Option<Staged>
    var backup: Option<Backup>
    const wp: Wp

    function Now(): Page
      reads this
    {
      Page(content, title, meta, seo, appended, staged, backup)
    }

    constructor (start: Page, wp: Wp)
      ensures Now() == start && this.wp == wp
    {
      content, title, meta, seo := start.content, start.title, start.meta, start.seo;
      appended, staged, backup := start.appended, start.staged, start.backup;
      this.wp := wp;
    }

    /** Park the computed change behind a token. */
    method StageContent(req: Request, token: string, now: int) returns (r: Built)
      modifies this`staged
      ensures r == Compute(PostOf(old(Now())), req.patch, req.ids, wp.host)
      ensures Now() == Stage(old(Now()), req, token, now, wp)
    {
      r := Build(PostOf(Now()), req.patch, req.ids, wp.host);
      if r.Built? {
        var record := Staged(r.builder, r.state, req.patch.title.GetOr(""), req.patch, r.appended,
                             req.id, token, now + TTL);
        staged := Some(UnslashStaged(record));
      }
    }

    /** Write the snapshot unless the one at hand belongs to this instruction. */
    method TakeBackup(c: Change, id: string, budget: nat) returns (alive: bool, left: nat)
      modifies this`backup
      ensures Now() == WroteAll(old(Now()), Cut(SnapshotWrites(old(Now()), c, id), budget), wp)
      ensures alive <==> budget >= |SnapshotWrites(old(Now()), c, id)|
      ensures alive ==> left == budget - |SnapshotWrites(old(Now()), c, id)|
    {
      if !ShouldSnapshot(backup, id) { return true, budget; }
      if budget == 0 { return false, 0; }
      var current := Read(c.builder, PostOf(Now()));
      backup := Some(UnslashBackup(Backup(c.builder, current, title, id)));
      return true, budget - 1;
    }

    /** The body and the title, by `wp_update_post`; an update of the title alone may be refused. */
    method UpdatePost(state: State, newTitle: Option<string>, titleTaken: bool, budget: nat)
      returns (alive: bool, left: nat)
      modifies this`content, this`title
      ensures Now() == WroteAll(old(Now()), Cut(PostWrites(state, newTitle, titleTaken), budget), wp)
      ensures alive <==> budget >= |PostWrites(state, newTitle, titleTaken)|
      ensures alive ==> left == budget - |PostWrites(state, newTitle, titleTaken)|
    {
      if state.content.Some? {
        if budget == 0 { return false, 0; }
        content := wp.Field(state.content.value);
        if newTitle.Some? { title := wp.Field(newTitle.value); }
        return true, budget - 1;
      }
      if newTitle.Some? && titleTaken {
        if budget == 0 { return false, 0; }
        title := wp.Field(newTitle.value);
        return true, budget - 1;
      }
      return true, budget;
    }

    /** `persist`: one meta value after the other. */
    method Persist(builder: Builder, values: seq<Item>, budget: nat) returns (alive: bool, left: nat)
      modifies this`meta
      ensures Now() == WroteAll(old(Now()), Cut(MetaWrites(builder, values), budget), wp)
      ensures alive <==> budget >= |MetaWrites(builder, values)|
      ensures alive ==> left == budget - |MetaWrites(builder, values)|
    {
      hide WroteAll, Unslash;
      left := budget;
      ghost var ws := MetaWrites(builder, values);
      NothingWritten(Now(), wp);
      for i := 0 to |values|
        invariant left == budget - i
        invariant Now() == WroteAll(old(Now()), ws[..i], wp)
      {
        if left == 0 { return false, 0; }
        var key, v := values[i].key, values[i].value;
        WroteSnoc(old(Now()), ws, i, wp);
        meta := meta[MetaKey(key) := Unslash(SlashMeta(builder, MetaKey(key), v))];
        left := left - 1;
      }
      return true, left;
    }

    /** `record_appended`: read the blocks, set one, write them all back. */
    method RecordAppended(key: Key, html: string)
      modifies this`appended
      ensures Now() == Wrote(old(Now()), PutBlock(key, html), wp)
    {
      var blocks := Assign(appended, key, Str(html));
      appended := UnslashItems(blocks);
    }

    method RecordAll(id: string, htmls: seq<string>, budget: nat) returns (alive: bool, left: nat)
      modifies this`appended
      ensures Now() == WroteAll(old(Now()), Cut(BlockWrites(id, htmls), budget), wp)
      ensures alive <==> budget >= |BlockWrites(id, htmls)|
      ensures alive ==> left == budget - |BlockWrites(id, htmls)|
    {
      hide WroteAll, Wrote, BlockKey;
      left := budget;
      ghost var ws := BlockWrites(id, htmls);
      NothingWritten(Now(), wp);
      for i := 0 to |htmls|
        invariant left == budget - i
        invariant Now() == WroteAll(old(Now()), ws[..i], wp)
      {
        if left == 0 { return false, 0; }
        WroteSnoc(old(Now()), ws, i, wp);
        RecordAppended(BlockKey(id, i), htmls[i]);
        left := left - 1;
      }
      return true, left;
    }

    /** SEO fields, then the staged record goes. */
    method Finish(fields: map<string, string>, budget: nat) returns (alive: bool)
      modifies this`seo, this`staged
      ensures Now() == WroteAll(old(Now()), Cut([SetSeo(fields), ClearStaged], budget), wp)
      ensures alive <==> budget >= 2
    {
      ghost var ws := [SetSeo(fields), ClearStaged];
      NothingWritten(Now(), wp);
      WroteSnoc(Now(), ws, 0, wp);
      WroteSnoc(Now(), ws, 1, wp);
      if budget == 0 { return false; }
      seo := seo + fields;
      if budget == 1 { return false; }
      staged := None;
      return true;
    }

    /**
     * `publish_content`.  `budget` is the number of writes that happen before the process dies
     * or `wp_update_post` reports an error; a large enough budget is a publish that completes.
     */
    method PublishContent(req: Request, budget: nat) returns (done: bool)
      modifies this`content, this`title, this`meta, this`seo, this`appended, this`staged, this`backup
      ensures Now() == Publish(old(Now()), req, budget, wp)
      ensures done <==> ChangeOf(old(Now()), req, wp).Some? && budget >= |PublishWrites(old(Now()), req, wp)|
    {
      hide Compute, WroteAll, Wrote, PostWrites, MetaWrites, BlockWrites, SnapshotWrites, Cut;
      ghost var start := Now();
      var change: Change;
      if staged.Some? {
        var r := staged.value;
        change := Change(r.builder, r.state, r.appended, r.patch, req.titleTaken);
      } else {
        var built := Build(PostOf(Now()), req.patch, req.ids, wp.host);
        if built.Failed? {
          NothingWritten(start, wp);
          return false;
        }
        change := Change(built.builder, built.state, built.appended, req.patch, req.titleTaken);
      }
      ghost var snap := SnapshotWrites(start, change, req.id);
      ghost var post := PostWrites(change.state, change.patch.title, change.titleTaken);
      ghost var metas := MetaWrites(change.builder, change.state.meta);
      ghost var blocks := BlockWrites(req.id, change.appended);
      ghost var end := [SetSeo(change.patch.seo), ClearStaged];
      ghost var all := snap + (post + (metas + (blocks + end)));
      assert all == PublishWrites(start, req, wp);

      CutConcat(start, snap, post + (metas + (blocks + end)), budget, wp);
      var alive, left := TakeBackup(change, req.id, budget);
      if !alive { return false; }

      CutConcat(Now(), post, metas + (blocks + end), left, wp);
      alive, left := UpdatePost(change.state, change.patch.title, change.titleTaken, left);
      if !alive { return false; }

      CutConcat(Now(), metas, blocks + end, left, wp);
      alive, left := Persist(change.builder, change.state.meta, left);
      if !alive { return false; }

      CutConcat(Now(), blocks, end, left, wp);
      alive, left := RecordAll(req.id, change.appended, left);
      if !alive { return false; }

      done := Finish(change.patch.seo, left);
    }

    /** Forget the blocks, then the snapshot. */
    method Forget(budget: nat) returns (alive: bool)
      modifies this`appended, this`backup
      ensures Now() == WroteAll(old(Now()), Cut([DropBlocks, DropBackup], budget), wp)
      ensures alive <==> budget >= 2
    {
      ghost var ws := [DropBlocks, DropBackup];
      NothingWritten(Now(), wp);
      WroteSnoc(Now(), ws, 0, wp);
      WroteSnoc(Now(), ws, 1, wp);
      if budget == 0 { return false; }
      appended := [];
      if budget == 1 { return false; }
      backup := None;
      return true;
    }

    /** `lvx_conn_revert`, dying after `budget` writes; `taken` says if `wp_update_post` takes the body. */
    method RevertContent(taken: bool, budget: nat) returns (reverted: bool)
      modifies this`content, this`title, this`meta, this`appended, this`backup
      ensures Now() == Revert(old(Now()), taken, budget, wp)
      ensures reverted <==> RevertCompletes(old(Now()), taken, budget)
    {
      if backup.None? { return false; }
      hide WroteAll, MetaWrites, Wrote, Cut;
      var b := backup.value;
      ghost var start := Now();
      ghost var post := if b.state.content.Some? && taken then [SetPost(b.state.content.value, Some(b.title))] else [];
      ghost var metas := MetaWrites(b.builder, b.state.meta);
      ghost var end := [DropBlocks, DropBackup];
      assert post + (metas + end) == RevertWrites(b, taken);
      NothingWritten(start, wp);

      CutConcat(start, post, metas + end, budget, wp);
      var alive, left := true, budget;
      if b.state.content.Some? && taken {
        alive, left := UpdatePost(b.state, Some(b.title), true, budget);
      }
      if !alive { return false; }

      CutConcat(Now(), metas, end, left, wp);
      alive, left := Persist(b.builder, b.state.meta, left);
      if !alive { return false; }

      reverted := Forget(left);
    }
  }

  lemma NothingWritten(p: Page, wp: Wp)
    ensures WroteAll(p, [], wp) == p
    ensures forall n :: Cut([], n) == []
  {
  }
}
