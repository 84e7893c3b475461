/** One WordPress page as the connector sees it, and the single writes its steps are made of. */
module Store {
  import opened Php
  import opened Tree
  import opened Slashes
  import opened Builders
  import opened Patch

  /** `LVX_BACKUP_META`: the state before a publish, and the instruction it was taken for. */
  datatype Backup = Backup(builder: Builder, state: State, title: string, fix: string)

  /** `LVX_STAGED_META`: the computed change, waiting behind a preview token. */
  datatype Staged = Staged(builder: Builder, state: State, title: string, patch: ContentPatch,
                           appended: seq<string>, fix: string, token: string, expires: int)

  datatype Page = Page(content: string, title: string, meta: map<string, Node>, seo: map<string, string>,
                       appended: seq<Item>, staged: Option<Staged>, backup: Option<Backup>)

  /** The host, and the filters that `wp_update_post` applies to a field. */
  datatype Wp = Wp(host: Host, filter: string -> string) {
    /** What `wp_update_post` stores for a field: it unslashes, as the meta store does, and filters. */
    function Field(s: string): string { filter(StripSlashes(s)) }
  }

  /** The filters put no backslash where there was none. */
  ghost predicate AddsNoBackslash(wp: Wp) {
    forall s :: Backslashes(wp.filter(s)) <= Backslashes(s)
  }

  function PostOf(p: Page): Post {
    Post(p.content, p.title, p.meta)
  }

  /* ----- the meta store unslashes every string of what it is given ----- */

  function UnslashState(s: State): State {
    State(if s.content.Some? then Some(StripSlashes(s.content.value)) else None, UnslashItems(s.meta))
  }

  function UnslashBackup(b: Backup): Backup {
    Backup(b.builder, UnslashState(b.state), StripSlashes(b.title), StripSlashes(b.fix))
  }

  function UnslashOption(o: Option<string>): Option<string> {
    if o.Some? then Some(StripSlashes(o.value)) else None
  }

  function UnslashFields(m: map<string, string>): map<string, string> {
    map k | k in m :: StripSlashes(m[k])
  }

  function UnslashPatch(p: ContentPatch): ContentPatch {
    ContentPatch(
      UnslashOption(p.bodyHtml),
      if p.bodyReplace.Some?
      then Some(Replacement(StripSlashes(p.bodyReplace.value.find), StripSlashes(p.bodyReplace.value.replace)))
      else None,
      UnslashOption(p.bodyAppend), UnslashOption(p.title), UnslashFields(p.seo))
  }

  function UnslashAll(ss: seq<string>): seq<string> {
    seq(|ss|, i requires 0 <= i < |ss| => StripSlashes(ss[i]))
  }

  function UnslashStaged(r: Staged): Staged {
    Staged(r.builder, UnslashState(r.state), StripSlashes(r.title), UnslashPatch(r.patch),
           UnslashAll(r.appended), StripSlashes(r.fix), r.token, r.expires)
  }

  /** `slash_meta`: Elementor slashes its JSON so that the store's unslashing undoes it. */
  function SlashMeta(b: Builder, key: string, v: Node): Node {
    if b.Elementor? && key == ELEMENTOR_META && v.Str? then Str(AddSlashes(v.s)) else v
  }

  /** What `persist` leaves in the store for a value. */
  function Kept(b: Builder, key: string, v: Node): Node {
    Unslash(SlashMeta(b, key, v))
  }

  /** A value survives `persist` exactly when Elementor slashes it or it has no backslash. */
  lemma PersistKeeps(b: Builder, key: string, v: Node)
    ensures Kept(b, key, v) == v <==> (b.Elementor? && key == ELEMENTOR_META && v.Str?) || NoBackslash(v)
  {
    if b.Elementor? && key == ELEMENTOR_META && v.Str? {
      StripAdd(v.s);
    } else {
      UnslashFixed(v);
    }
  }

  /* ----- keys of appended blocks ----- */

  function Decimal(n: nat): string {
    if n < 10 then [n as char + '0'] else Decimal(n / 10) + [(n % 10) as char + '0']
  }

  lemma {:induction false} DecimalInjective(m: nat, n: nat)
    requires Decimal(m) == Decimal(n)
    ensures m == n
  {
    var a, b := Decimal(m), Decimal(n);
    assert |a| >= 1 && |b| >= 1;
    assert a[|a| - 1] == (m % 10) as char + '0' && b[|b| - 1] == (n % 10) as char + '0';
    if m >= 10 && n >= 10 {
      assert a[..|a| - 1] == Decimal(m / 10) && b[..|b| - 1] == Decimal(n / 10);
      DecimalInjective(m / 10, n / 10);
    }
  }

  /** `($instruction_id !== '' ? $instruction_id : 'lvx') . '-' . $i` */
  function BlockKey(id: string, i: nat): Key {
    Name((if id != "" then id else "lvx") + "-" + Decimal(i))
  }

  lemma {:induction false} DecimalDigits(n: nat)
    ensures |Decimal(n)| >= 1 && forall k :: 0 <= k < |Decimal(n)| ==> '0' <= Decimal(n)[k] <= '9'
  {
    if n < 10 {
    } else {
      DecimalDigits(n / 10);
    }
  }

  function KeyPrefix(id: string): string {
    (if id != "" then id else "lvx") + "-"
  }

  /**
   * Two blocks have one key only if they are the same block of one instruction; but no id and the
   * id `lvx` share theirs.
   */
  lemma BlockKeyInjective(a: string, i: nat, b: string, j: nat)
    requires BlockKey(a, i) == BlockKey(b, j)
    ensures i == j && (a == b || (a == "" && b == "lvx") || (a == "lvx" && b == ""))
  {
    DecimalDigits(i);
    DecimalDigits(j);
    SplitAtDash(KeyPrefix(a), Decimal(i), KeyPrefix(b), Decimal(j));
    DecimalInjective(i, j);
    assert KeyPrefix(a)[..|KeyPrefix(a)| - 1] == KeyPrefix(b)[..|KeyPrefix(b)| - 1];
  }

  lemma BlockKeysAre()
    ensures BlockKey("", 0) == Name("lvx-0")
    ensures BlockKey("fix", 0) == Name("fix-0") && BlockKey("fix", 12) == Name("fix-12")
  {
    assert Decimal(0) == "0" && Decimal(1) == "1" && Decimal(12) == "12";
    assert "lvx" + "-" + "0" == "lvx-0" && "fix" + "-" + "0" == "fix-0" && "fix" + "-" + "12" == "fix-12";
  }

  lemma SplitAtDash(p: string, u: string, q: string, v: string)
    requires p + u == q + v && p != "" && q != "" && p[|p| - 1] == '-' && q[|q| - 1] == '-'
    requires '-' !in u && '-' !in v
    ensures p == q && u == v
  {
    if |p| < |q| {
      DashInside(p, u, q, v);
    } else if |q| < |p| {
      DashInside(q, v, p, u);
    } else {
      assert p == (p + u)[..|p|] == (q + v)[..|p|] == q;
      assert u == (p + u)[|p|..] == (q + v)[|p|..] == v;
    }
  }

  lemma DashInside(p: string, u: string, q: string, v: string)
    requires p + u == q + v && |p| < |q| && q[|q| - 1] == '-'
    ensures '-' in u
  {
    assert u[|q| - 1 - |p|] == (p + u)[|q| - 1] == (q + v)[|q| - 1] == '-';
  }

  /* ----- single writes ----- */

  datatype Write =
    | SetBackup(b: Backup)
    | SetPost(content: string, newTitle: Option<string>)
    | SetTitle(title: string)
    | SetMeta(key: Key, value: Node)
    | PutBlock(block: Key, html: string)
    | SetSeo(fields: map<string, string>)
    | ClearStaged
    | DropBlocks
    | DropBackup

  function MetaKey(k: Key): string {
    match k case Name(s) => s case Index(n) => ""
  }

  function Wrote(p: Page, w: Write, wp: Wp): Page {
    match w
    case SetBackup(b) => p.(backup := Some(UnslashBackup(b)))
    case SetPost(content, title) =>
      p.(content := wp.Field(content), title := if title.Some? then wp.Field(title.value) else p.title)
    case SetTitle(title) => p.(title := wp.Field(title))
    case SetMeta(key, value) => p.(meta := p.meta[MetaKey(key) := Unslash(value)])
    case PutBlock(key, html) => p.(appended := UnslashItems(Assign(p.appended, key, Str(html))))
    case SetSeo(fields) => p.(seo := p.seo + fields)
    case ClearStaged => p.(staged := None)
    case DropBlocks => p.(appended := [])
    case DropBackup => p.(backup := None)
  }

  function WroteAll(p: Page, ws: seq<Write>, wp: Wp): Page
    decreases |ws|
  {
    if ws == [] then p else WroteAll(Wrote(p, ws[0], wp), ws[1..], wp)
  }

  lemma {:induction false} WroteConcat(p: Page, a: seq<Write>, b: seq<Write>, wp: Wp)
    ensures WroteAll(p, a + b, wp) == WroteAll(WroteAll(p, a, wp), b, wp)
    decreases |a|
  {
    if a == [] {
      assert a + b == b;
    } else {
      assert (a + b)[1..] == a[1..] + b;
      WroteConcat(Wrote(p, a[0], wp), a[1..], b, wp);
    }
  }

  lemma WroteSnoc(p: Page, ws: seq<Write>, i: nat, wp: Wp)
    requires i < |ws|
    ensures WroteAll(p, ws[..i + 1], wp) == Wrote(WroteAll(p, ws[..i], wp), ws[i], wp)
  {
    assert ws[..i + 1] == ws[..i] + [ws[i]];
    WroteConcat(p, ws[..i], [ws[i]], wp);
  }

  function Min(a: nat, b: nat): nat { if a < b then a else b }

  /** What is left of a list of writes when the process dies after `n` of them. */
  function Cut(ws: seq<Write>, n: nat): seq<Write> {
    ws[..Min(n, |ws|)]
  }

  lemma CutConcat(p: Page, a: seq<Write>, b: seq<Write>, n: nat, wp: Wp)
    ensures n < |a| ==> Cut(a + b, n) == Cut(a, n)
    ensures n >= |a| ==> WroteAll(p, Cut(a + b, n), wp) == WroteAll(WroteAll(p, Cut(a, n), wp), Cut(b, n - |a|), wp)
  {
    if n >= |a| {
      assert Cut(a + b, n) == a + Cut(b, n - |a|) && Cut(a, n) == a;
      WroteConcat(p, a, Cut(b, n - |a|), wp);
    }
  }

  /* ----- steps of the protocol ----- */

  /** An instruction: the patch it carries, its id, the random element ids of a native append, and
      whether `wp_update_post` takes an update of the title alone (if not, the code goes on). */
  datatype Request = Request(patch: ContentPatch, id: string, ids: Ids, titleTaken: bool)

  /** `Lvx_Publish::should_snapshot`.  A stored state is an array with two keys, never empty. */
  predicate ShouldSnapshot(existing: Option<Backup>, id: string) {
    existing.None? || id == "" || existing.value.fix != id
  }

  /** What a publish is about to write: from the staged record, or else computed now. */
  datatype Change = Change(builder: Builder, state: State, appended: seq<string>, patch: ContentPatch, titleTaken: bool)

  function ChangeOf(p: Page, req: Request, wp: Wp): Option<Change> {
    match p.staged
    case Some(r) => Some(Change(r.builder, r.state, r.appended, r.patch, req.titleTaken))
    case None =>
      match Compute(PostOf(p), req.patch, req.ids, wp.host)
      case Built(b, s, appended, _) => Some(Change(b, s, appended, req.patch, req.titleTaken))
      case Failed(_, _, _) => None
  }

  function BackupOf(p: Page, b: Builder, id: string): Backup {
    Backup(b, Read(b, PostOf(p)), p.title, id)
  }

  function PostWrites(s: State, title: Option<string>, titleTaken: bool): seq<Write> {
    if s.content.Some? then [SetPost(s.content.value, title)]
    else if title.Some? && titleTaken then [SetTitle(title.value)]
    else []
  }

  function MetaWrites(b: Builder, meta: seq<Item>): seq<Write> {
    seq(|meta|, i requires 0 <= i < |meta| =>
      SetMeta(meta[i].key, SlashMeta(b, MetaKey(meta[i].key), meta[i].value)))
  }

  function BlockWrites(id: string, appended: seq<string>): seq<Write> {
    seq(|appended|, i requires 0 <= i < |appended| => PutBlock(BlockKey(id, i), appended[i]))
  }

  /** Everything after the snapshot, in order. */
  function ChangeWrites(c: Change, id: string): seq<Write> {
    PostWrites(c.state, c.patch.title, c.titleTaken) + MetaWrites(c.builder, c.state.meta)
    + BlockWrites(id, c.appended) + [SetSeo(c.patch.seo), ClearStaged]
  }

  function SnapshotWrites(p: Page, c: Change, id: string): seq<Write> {
    if ShouldSnapshot(p.backup, id) then [SetBackup(BackupOf(p, c.builder, id))] else []
  }

  /** All writes of one publish, or none when the build is refused. */
  function PublishWrites(p: Page, req: Request, wp: Wp): seq<Write> {
    match ChangeOf(p, req, wp)
    case None => []
    case Some(c) => SnapshotWrites(p, c, req.id) + ChangeWrites(c, req.id)
  }

  /** A publish that dies after `cut` writes; it runs to its end when `cut` is large enough. */
  function Publish(p: Page, req: Request, cut: nat, wp: Wp): Page {
    WroteAll(p, Cut(PublishWrites(p, req, wp), cut), wp)
  }

  const TTL: int := 14 * 24 * 60 * 60

  /** Compute the change and park it; the live page is not touched. */
  function Stage(p: Page, req: Request, token: string, now: int, wp: Wp): Page {
    match Compute(PostOf(p), req.patch, req.ids, wp.host)
    case Failed(_, _, _) => p
    case Built(b, s, appended, _) =>
      p.(staged := Some(UnslashStaged(
           Staged(b, s, req.patch.title.GetOr(""), req.patch, appended, req.id, token, now + TTL))))
  }

  /**
   * Restore the snapshot, drop the appended blocks, forget the snapshot.  The code does not look
   * at whether `wp_update_post` takes the body; if not, it goes on without.
   */
  function RevertWrites(b: Backup, taken: bool): seq<Write> {
    (if b.state.content.Some? && taken then [SetPost(b.state.content.value, Some(b.title))] else [])
    + MetaWrites(b.builder, b.state.meta)
    + [DropBlocks, DropBackup]
  }

  /** A revert that dies after `cut` writes. */
  function Revert(p: Page, taken: bool, cut: nat, wp: Wp): Page {
    match p.backup
    case None => p
    case Some(b) => WroteAll(p, Cut(RevertWrites(b, taken), cut), wp)
  }

  /** Does the revert run to its end? */
  predicate RevertCompletes(p: Page, taken: bool, cut: nat) {
    p.backup.Some? && cut >= |RevertWrites(p.backup.value, taken)|
  }
}
