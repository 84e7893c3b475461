# Livesov: the connector's page edits, and four smaller state machines

The Livesov connector is a WordPress plugin that changes pages it did not write. It finds a
passage as a visitor reads it, maps it back to the markup, and splices a replacement in; it does
so inside raw HTML, shortcodes and the nested data of eight page builders; it stages a change
behind a preview link, publishes it, survives a publish that dies half-way and is delivered
again, and can undo it. This project models that code and proves what it promises. It also
models the rate limiter of the web application, the loop that polls a running scan, the backfill
of the billing history, and the rotated shortlist of competitors.

Where the code works step by step, the model is a method with loops or a class with fields, and
its contract ties the result to a function; the theorems are about those functions.

## What is modelled, and what was found

**Passages in markup** (`Php`, `Markup`, `Grammar`, `Locality`, `Projection`, `ScannerLaws`,
`Rendering`, `Text`, `Seams`, `SeamText`, `Outline`, `Edges`, `SpliceLaws`, `Ink`, `PlainSplice`,
`Passages`, `InlineInvariance`, `Spacing`, `Needles`, `TextLimits`). `Projection.Project` is the
scanning loop, branch by branch: comment, tag, shortcode, whitespace, entity, byte. It is proved to
replay a token list (`Markup.Tokens`) on which everything else is stated; which bytes each token is,
from the three forms of a character reference to the names of the inline tags, is spelt out by
`Grammar.TokenIsExact`. One `char` stands for one byte, and
`html_entity_decode` is an arbitrary function: every theorem holds for every decoder, unless it
names a law for it.

- A page that is written with character references is searched as it reads: a passage is found
  exactly if it is in the rendered text, and replaced exactly if it is there once
  (`Passages.FoundAsItReads`); then what is written for it goes, and what is written around it stays
  (`Passages.PiecesReplaced`, with `Bob&#8217;s` as its instance `Passages.ApostropheIsFound`).
- A replacement is accepted exactly when the normalised passage occurs once, overlaps counted,
  and no structural region overlaps its span (`Text.ExactDecision`). Nothing is asked of the
  replacement.
- So the structure of the page does not survive every accepted replacement: `<!--` in place of
  the `a` of `a<p>` is accepted, and the `<p>` is gone. It survives, whatever else happens, if
  the replacement closes every comment, tag and shortcode it opens
  (`SpliceLaws.StructureTheorem`), and that condition is exact: any other replacement takes away
  the `<p>` of that page (`Outline.ClosedIsExact`, `TextLimits.OpenReplacementLosesStructure`).
- The visible text changes by exactly the one occurrence if three things hold: the hit starts and
  ends between entities; no character reference that the decoder changes forms at a seam; and no
  space comes or goes at an edge of the replacement. For every decoder each of them decides when
  the others hold (`SpliceLaws.SpliceTheorem`). Two failures can cancel, though
  (`TextLimits.TwoFailuresCancel`): a reference that is cut in two takes a letter away, and one
  that forms at the seam brings it back. That takes a reference that shows more bytes than it has,
  as `&nGt;` does. On every result without one the text is right **if and only if** all three hold
  (`Ink.SwapIsExact`), for decoders that put no space inside the text of a reference.
- Each of the three can fail on an accepted replacement: `&fjlig;` shows two letters, and replacing
  one removes both (`TextLimits.UnalignedHit`); `b;` for the X of `&aX` makes `&ab;`
  (`TextLimits.SeamEntityChangesText`); and taking the X out of `a X b` leaves one space
  (`TextLimits.EdgeLosesSpace`). The edges are spelled out by `Edges.Fits`, also for the empty
  replacement that a patch without one stands for. Plain collapsed text always fits at its edges,
  and its theorem (`PlainSplice.PlainSpliceTheorem`) has the seam as its only condition.
- Whitespace shows as one space, but not always, whatever the comment at
  connector-plugin/includes/text.php:197-198 says: `a &nbsp;b` shows two
  (`TextLimits.TwoSpaces`). `Spacing.SpacesAreExact` says exactly when, for decoders that put no
  space inside the text of a reference; it finds the two of the example
  (`TextLimits.TwoSpacesFound`). The comment at line 47 speaks of the first of several
  occurrences; the code refuses several.
- Normalising a passage twice is normalising it once exactly if its needle is in a normal form
  (`Needles.IdempotentIff`): no tag, no reference that would be decoded, no whitespace but single
  spaces. This is for decoders that show an ampersand only as the whole text of a reference, as
  HTML has it. Text without tags and ampersands always gets there
  (`Needles.PlainIsIdempotent`).
- On text that reads as itself all of this is plain string replacement
  (`PlainSplice.LiteralIsStringReplace`).
- An inline tag is invisible at every token boundary, also at the end of a source that leaves a
  region open, which then swallows it (`InlineInvariance.InlineMarkupInvariance`). The one
  exception is a shortcode that is left open and a tag with a `]` in it, such as `x[y` and `<b ]>`
  (`InlineInvariance.BracketInTag`); `InlineInvariance.ClosingTagIsExact` says when even that
  shows nothing.

**Builders** (`Tree`, `Slashes`, `Oxygen`, `Builders`, `Patch`, `Adapters`). The tree walks of `Lvx_Tree`,
the layers of slashing around Oxygen's JSON, the eight adapters and `Lvx_Patch::build`.
`json_decode` and `wp_json_encode` are parameters. Of text that decodes, `Oxygen.JsonLaws` asks
that it has no backslash before its first quote, no byte order mark, distinct keys, and a quote if
it gives a string (sections 2, 7 and 8.1 of RFC 8259). That the edited tree itself survives
encoding and decoding is a condition of the round trip.

- The meta store removes one layer of slashes from whatever it is given, which the code allows
  for with Elementor only. `Oxygen.StoredLayers` says what this means for Oxygen: a value written
  at depth `d > 0` is kept at depth `d - 1` and still reads as the same tree; at depth 0 the text
  is kept exactly when the JSON has no backslash, and the tree also when `/` is all that is
  escaped. A line break in a text, for one, is lost (`Oxygen.EscapeIsLost`).
- What a build makes of a patch is given in full for all eight builders (`Adapters.BodyBuild`,
  `Adapters.TreeBuild`, `Adapters.OxygenBuild`), on the builder that owns the page
  (`Adapters.OwnerIsFirst`); and after the publish the page reads as the edited body or tree
  (`Adapters.BodyPublished`, `Adapters.TreePublished`, `Adapters.OxygenPublished`). Oxygen's
  shortcode copy is left as it was.
- When a build succeeds can be read off the adapters: `Patch.BuildDecision` is a remark that
  follows from the definitions.

**Stage, publish, retry, revert** (`Store`, `Connector`, `Undo`, `Publishing`, `CrashRedo`,
`Redelivery`, `Preview`, `StageFirst`). A page is its body, title, meta, SEO fields, appended
blocks, staged record and backup; every operation is a list of single writes, and a publish may
die between any two of them, and so may a revert. `Connector.Site` performs the operations on
fields; `Preview.Viewer` is the overlay that the preview filters read. The store unslashes what it is given, also the
staged record and the backup, as the code's own comments say it does; `wp_update_post` unslashes
a field and then filters it, by filters that are arbitrary except that they add no backslash. The
order is an assumption about the host: WordPress filters the slashed text and unslashes last, so
`Wp.filter` stands for what its filters amount to on text without slashes.

- Undo (`Undo.UndoOverRuns`): after any history, of publishes and reverts that died anywhere, a
  revert that completes brings back the builder state that was read just before the first attempt
  of the last block of attempts with one id, **if and only if** `Undo.Restorable`: no backslash in
  what the builder keeps, a body that the filters leave alone, and no field of Oxygen's filled
  that was empty before. There is always exactly one such block (`Undo.LastBlockIsUnique`).
  Elementor's own slashing does not help here, because the backup is written without it: no
  history brings back a page with an escape in its JSON (`Undo.ElementorNeverRestored`), not even
  a publish that changes nothing (`Undo.QuotedPageIsLost`).
- A revert restores builder state. Titles come back only for the builders whose content is the
  body, appended blocks are dropped, SEO fields stay (`Undo.RevertedRest`). The code does not look
  at whether `wp_update_post` takes the body: if it is refused, the body is not restored and the
  snapshot is forgotten all the same. A revert that dies can be done again: the snapshot goes last
  (`CrashRedo.RevertRedo`).
- Redo (`CrashRedo.CrashRedo`): any number of interrupted attempts and then a full one leave the
  page of one uninterrupted publish. If a block is recorded, every rewrite of the block list
  unslashes the blocks of other instructions once more; so they must have settled, and
  `CrashRedo.RedoIsExact` says that this is exact (`CrashRedo.RedoTouchesOthers` is a page where
  they have not). Redo ends with the clearing of the staged record. Afterwards an append that is
  delivered again is one more block in the body, unless it is blank (`Redelivery.SecondDelivery`);
  one more element or section on Bricks and Elementor, blank or not, for each of any number of
  deliveries (`Redelivery.BricksDeliveries`, `Redelivery.ElementorDeliveries`); and still one block
  on Beaver, where it is recorded under the key of its instruction
  (`Redelivery.BeaverSecondDelivery`).
- Preview (`Preview.PreviewAgrees`): body, title, meta and blocks each agree with the published
  page under a condition stated exactly. A staged title that PHP calls empty (`""` or `"0"`) is
  published but not previewed, and a block key already in use makes blocks differ. That staging
  changes nothing a visitor sees (`Preview.StagingIsInvisible`) is a remark: it follows from what
  staging writes.
- Publishing by way of a preview and publishing at once differ where one more layer of slashes
  matters (`StageFirst.StageThenPublish`), in body, title, meta, blocks and SEO fields; for
  Elementor that is wherever its JSON has a backslash.
- What a preview filter returns is taken as what is served. WordPress's own treatment of an array
  that a filter returns for a single value (Beaver, Bricks) is an assumption about the host.

**Rate limiter** (`RateLimiter`). The clock is a parameter that does not go back. Cleanup never
changes an answer. The bound for a closed interval of one window is 2·limit − 1, one less than
two full windows, and it is reached. A denial on any run of the deployed limiter names the time
to the reset, rounded up to the second, and the first request after the reset is admitted
(`RateLimiter.DenialIsHonest`). A caller who waits the whole seconds it was told can still be
denied, if others with its key use up the new window in between; `RateLimiter.WaitedIsAdmitted`
says exactly when, and `RateLimiter.WaitedAndDenied` is such a run.

**Polling** (`Polling`). One loop against an arbitrary server and clock. The server's answers
have bounded progress, rows that only grow, and one of the three statuses of the route
(trackly-nextjs/src/app/api/brands/[id]/run-status/[runId]/route.ts:61-78). The fields of the loop
are proved to be what the answers so far amount to, so the loop ends with the first poll that
decides, and as that poll decides: stuck exactly if the run is called running more than ten minutes
after it last told of more progress than ever before (`Polling.StuckIsExact`), lost exactly after
twenty failures in a row (`Polling.LostIsExact`). Until the first progress nothing bounds the loop,
so the poll of the first progress is a parameter. A run that is done but comes without its final
result is reported as failed, as the code does.

**Billing history** (`PlanHistory`, `PlanRecords`). Audit rows to billing events, and inserting
them. Every billing row that has an owner gives exactly one event, which says what the row stands
for; the one exception is a webhook for the plan the user is on that is no renewal
(`PlanRecords.EveryRowIsRecorded`). Over the
rows that the application writes
(trackly-nextjs/src/app/api/payments/cancel/route.ts:227,
trackly-nextjs/src/app/api/payments/webhooks/dodopayments/route.ts:292 and 1308,
trackly-nextjs/src/lib/db.ts:714-717) a run scoped to one user emits that user's events and no
others; over any rows, the scope is that user's rows exactly if every row in it resolves to the
user.

**Shortlist** (`Roster`). For every roster of distinct names and every size, negative included.

## Model

| member | source | states |
|---|---|---|
| Projection.Project | connector-plugin/includes/text.php:130-236 | the scanning loop computes the pairs, skipped regions and text that the token list of the source stands for |
| Grammar.TokenIsExact | connector-plugin/includes/text.php:136-228 | which bytes a token takes and of what kind it is, spelt out for every source: comments and delimiters, inline and block tags, shortcodes, whitespace, references, bytes |
| Grammar.ReferenceIsExact | connector-plugin/includes/text.php:206 | a source starts with a reference of `n` bytes iff its first `n` bytes are `&`, one of the three forms with their lengths, and `;` |
| Grammar.ReferenceForms | connector-plugin/includes/text.php:206 | each of the three forms is a reference whatever follows it |
| Grammar.NameIs | connector-plugin/includes/text.php:157-160 | the name of a tag is what stands after `<` or `</` and spaces, in small letters |
| Projection.ScanOne | connector-plugin/includes/text.php:136-194 | one turn consumes exactly the token at the offset and does that token's bookkeeping; it always advances |
| Projection.ScanText | connector-plugin/includes/text.php:196-228 | flushing the pending space and emitting an entity or a byte is the bookkeeping of the text token |
| Locality.LexSwap | connector-plugin/includes/text.php:136-228 | a token does not depend on the bytes after it, except that an open `&` may be completed by them |
| Locality.TokensTile | connector-plugin/includes/text.php:130-228 | the tokens cover the source: nothing lost, repeated or moved |
| Locality.TokensSplit | connector-plugin/includes/text.php:130-228 | at a token boundary the projection of a source is that of its two parts |
| Seams.Joined | connector-plugin/includes/text.php:130-228 | two stretches project one after the other when the first closes what it opens and no decoded reference forms across the seam |
| Seams.BoundaryIsClosed | connector-plugin/includes/text.php:141-187 | what ends at a token boundary with more to follow closes what it opens |
| Seams.SeamTokens | connector-plugin/includes/text.php:206-224 | a reference across a seam takes single bytes from both sides and changes no other token |
| Seams.SeamSafe | connector-plugin/includes/text.php:206 | no entity forms across a seam unless the next byte is a letter, a digit, `#` or `;` |
| Locality.CutAtToken | connector-plugin/includes/text.php:130-228 | before any token the source can be cut into parts that project on their own |
| ScannerLaws.ScannerInvariant | connector-plugin/includes/text.php:124-228 | spans non-empty, in bounds, non-decreasing and equal only inside one entity; skips sorted and disjoint; only a collapsed space overlaps a skip |
| ScannerLaws.TextOwner | connector-plugin/includes/text.php:219-227 | every visible byte that is not a space has the span of the one token that emitted it |
| ScannerLaws.OverlapIsSpace | connector-plugin/includes/text.php:196-203 | a visible byte whose span meets a skipped region is a collapsed space |
| ScannerLaws.SkipsDisjoint | connector-plugin/includes/text.php:141-187 | an earlier skipped region ends before a later one starts |
| Rendering.AbsRun | connector-plugin/includes/text.php:130-233 | the visible text does not depend on offsets: it can be computed from the kinds of the tokens alone |
| Rendering.SolidRun | connector-plugin/includes/text.php:196-227 | a stretch that starts and ends with text contributes the same bytes wherever it stands |
| SeamText.SeamIsExact | connector-plugin/includes/text.php:206-224 | for every decoder two stretches show together what they show one after the other iff no reference that it changes forms across the seam |
| Outline.ClosedKeepsStructure | connector-plugin/includes/text.php:141-187 | a stretch that closes what it opens leaves the block tags, comments, delimiters and shortcodes of what follows as they are |
| Outline.ClosedIsExact | connector-plugin/includes/text.php:141-187 | that condition is exact: after any other stretch a single tag is lost |
| Edges.FitsIsExact | connector-plugin/includes/text.php:189-217 | markup stands between two others with no space coming or going iff its edges fit, also if it shows nothing itself |
| Text.Replace | connector-plugin/includes/text.php:55-91 | the steps of the code compute `Text.Edit`, whose meaning the next rows state |
| Text.ExactDecision | connector-plugin/includes/text.php:55-91 | success iff the needle is non-empty, occurs once counting overlaps, and its span is unblocked; then exactly that span is replaced; otherwise the source comes back |
| Text.SoleByTwoSearches | connector-plugin/includes/text.php:69-75 | a first search, and a second one from the next byte, decide whether there is exactly one occurrence |
| Text.HitInBounds | connector-plugin/includes/text.php:77-79 | the mapped span of every hit is non-empty and inside the source |
| Text.SpansUnsafeRegion | connector-plugin/includes/text.php:246-261 | the loop over the regions and the ranked lookup return the blocker that `Text.WorstIsExact` characterises |
| Text.WorstIsExact | connector-plugin/includes/text.php:240-261 | a blocker is reported iff a region that is not inline overlaps the span, and it is of the most significant kind among those |
| Text.MostTelling | connector-plugin/includes/text.php:255-260 | a shortcode is reported before a block delimiter, that before a comment, and that before a tag |
| Text.WhyRefused | connector-plugin/includes/text.php:57-84 | which of the five reasons a refusal gives, from the passage and the visible text |
| Text.CheckContains | connector-plugin/includes/text.php:94-99 | true iff the needle is non-empty and occurs in the visible text |
| SpliceLaws.HitTokens | connector-plugin/includes/text.php:77-79 | a hit covers whole tokens, and those emit only the hit iff it is aligned to entities |
| SpliceLaws.HitParts | connector-plugin/includes/text.php:77-87 | the mapped span cuts the source at token boundaries; unblocked, the removed slice holds no structure; alone it projects to the matched bytes iff the hit is aligned |
| SpliceLaws.UnblockedHasNoStructure | connector-plugin/includes/text.php:81-84 | the guard on regions means that no structural token is removed |
| SpliceLaws.EditIsSplice | connector-plugin/includes/text.php:86-90 | the result is the source with the cut-out hit exchanged, the hit being free of structure |
| SpliceLaws.StructureTheorem | connector-plugin/includes/text.php:25-30 | block tags, comments, block delimiters and shortcodes stay, in order, with the replacement's own in place of the hit, for every replacement that closes what it opens, the empty one included |
| SpliceLaws.SpliceTheorem | connector-plugin/includes/text.php:55-91 | exactly the one occurrence is swapped in the visible text if the hit is aligned, no reference forms at a seam and the edges fit; for every decoder each of these decides when the others hold; the removed slice projects to the needle iff the hit is aligned |
| Ink.InkOfSeams | connector-plugin/includes/text.php:206-224 | three stretches put together have no more non-space bytes than apart, and the same ones only if no reference forms at either seam, as long as none shows more bytes than it has: two seams cannot cancel |
| Ink.SwapIsExact | connector-plugin/includes/text.php:55-91 | on a result where no reference shows more bytes than it has, exactly the one occurrence is swapped iff the hit is aligned, no reference forms at a seam and the edges fit, all together |
| PlainSplice.LiteralVisible | connector-plugin/includes/text.php:189-228 | collapsed text in which nothing is decoded is its own projection, closed, and has no structure |
| PlainSplice.LiteralNeedle | connector-plugin/includes/text.php:114-121 | such text is its own needle |
| PlainSplice.PlainSpliceTheorem | connector-plugin/includes/text.php:55-99 | with plain text and an aligned hit: structure untouched, the needle removed, exactly one occurrence swapped iff no decoded reference forms at the left seam, and then `contains` finds the new text |
| PlainSplice.LiteralIsStringReplace | connector-plugin/includes/text.php:6-28 | on a literal collapsed source the projection, the back-map and the guard amount to plain string replacement of a sole occurrence, and `contains` to substring search |
| PlainSplice.PlainSeamSafe | connector-plugin/includes/text.php:206 | when the seam condition holds at once |
| Passages.PiecesShow | connector-plugin/includes/text.php:189-228 | collapsed text that is written in bytes and references shows as it reads |
| Passages.FoundAsItReads | connector-plugin/includes/text.php:6-24 | in such a page a passage is found iff it is in the text as it reads, and replaced iff it is there once |
| Passages.PiecesReplaced | connector-plugin/includes/text.php:6-24 | sought as it reads, what is written for the passage is replaced, and all that is written before and after it stays |
| Passages.ApostropheIsFound | connector-plugin/includes/text.php:12 | the rendered `Bob’s` is found in `Bob&#8217;s shop` and replaced |
| InlineInvariance.InlineMarkupInvariance | connector-plugin/includes/text.php:36-44 | an inline tag inserted between tokens, or at the end of any source unless it closes a shortcode there, changes neither the visible text nor `contains` nor whether a replacement is accepted |
| InlineInvariance.ClosingTagIsExact | connector-plugin/includes/text.php:178-187 | a tag that closes the shortcode a source leaves open is invisible iff what is left of it shows nothing |
| InlineInvariance.BracketInTag | connector-plugin/includes/text.php:178-187 | the tag `<b ]>` after `x[y` is visible |
| InlineInvariance.UnblockedIffFree | connector-plugin/includes/text.php:246-253 | the guard on regions holds iff no structural token lies between the ends of the hit |
| InlineInvariance.SameGuard | connector-plugin/includes/text.php:246-253 | two sources that differ by one inline tag judge every hit alike |
| Spacing.SpacesAreExact | connector-plugin/includes/text.php:189-217 | two spaces show in a row iff a whitespace entity follows other whitespace after something visible, and text or another whitespace entity comes later |
| Needles.IdempotentIff | connector-plugin/includes/text.php:114-121 | normalising a passage again changes nothing iff its needle is in normal form |
| Needles.PlainIsIdempotent | connector-plugin/includes/text.php:114-121 | a passage without tags and ampersands, whatever its whitespace, needs normalising once |
| TextLimits.OpenReplacementLosesStructure | connector-plugin/includes/text.php:86-90 | on `a<p>` every replacement of the `a` is accepted, and one that leaves something open takes the `<p>` away |
| TextLimits.SeamEntityChangesText | connector-plugin/includes/text.php:86-90 | an accepted plain replacement that completes an entity with the bytes before it does not read as itself |
| TextLimits.UnalignedHit | connector-plugin/includes/text.php:77-90 | an accepted replacement of one letter of an entity removes the whole entity |
| TextLimits.TwoFailuresCancel | connector-plugin/includes/text.php:77-90 | an accepted replacement that cuts one reference and completes another, and reads as it should nevertheless |
| TextLimits.EdgeLosesSpace | connector-plugin/includes/text.php:86-90 | for every decoder, removing the X of `a X b` is accepted and takes a space with it |
| TextLimits.TwoSpaces | connector-plugin/includes/text.php:196-217 | the source `a &nbsp;b` shows two spaces |
| TextLimits.TwoSpacesFound | connector-plugin/includes/text.php:196-217 | its decoder meets the law of `Spacing.SpacesAreExact`, which finds them |
| TextLimits.NeedleNotIdempotent | connector-plugin/includes/text.php:114-121 | normalising `&lt;` twice is not normalising it once |
| TextLimits.SpacesNotIdempotent | connector-plugin/includes/text.php:114-121 | nor is it for two spaces, with no tag in sight |
| Tree.Collect | connector-plugin/includes/builders.php:72-92 | the walk appends exactly the paths that `Tree.HitsAreEligible` characterises, in order |
| Tree.HitsAreEligible | connector-plugin/includes/builders.php:72-92 | a path is collected iff it leads to a string that shows the passage and passes no plumbing key; one hit iff there is one such place |
| Tree.Apply | connector-plugin/includes/builders.php:95-118 | the rebuilding walk, pruned by prefixes, puts the spliced text at the target and reports whether it did |
| Tree.Replace | connector-plugin/includes/builders.php:50-69 | collecting, insisting on one place and rebuilding compute `Tree.Edit` |
| Tree.TreeEditDecision | connector-plugin/includes/builders.php:50-69 | an edit succeeds iff exactly one eligible place shows the passage and the splice there is accepted; otherwise the tree is returned unchanged |
| Tree.TreeEditFrame | connector-plugin/includes/builders.php:50-118 | on success that leaf holds the spliced text, every other leaf is as before, and shape, keys and order are the same |
| Tree.WhyUntouched | connector-plugin/includes/builders.php:54-68 | which reason a refused edit gives, and how many places it counts |
| Tree.PlumbingKept | connector-plugin/includes/builders.php:38-48 | whatever the outcome, nothing under a plumbing key changes |
| Adapters.SkippableIs | connector-plugin/includes/builders.php:38-42 | a key is plumbing iff it is one of the 21 names, whatever its case |
| Adapters.BracketsAreText | connector-plugin/includes/builders.php:72-92 | in a tree `[...]` is text: a string that reads as itself is searched brackets and all |
| Adapters.PushedKey | connector-plugin/includes/builders.php:413-546 | a pushed entry takes the integer after the largest there is, or 0 |
| Adapters.TypesAndLinksKept | connector-plugin/includes/builders.php:38-131 | no replacement touches an `elType`, a `widgetType` or a `url` |
| Slashes.StripAdd | connector-plugin/includes/builders.php:438-440 | slashing then unslashing is the identity on every string |
| Slashes.SlashedAre | connector-plugin/includes/builders.php:349 | quotes of either kind, backslashes and NUL are escaped, and nothing else |
| Slashes.StripFixed | connector-plugin/includes/builders.php:452-456 | unslashing keeps a string iff it has no backslash |
| Slashes.UnslashFixed | connector-plugin/includes/builders.php:162-166 | the store keeps a nested value iff no string in it has a backslash |
| Slashes.UnslashTwice | connector-plugin/livesov-connector.php:543-573 | going through the store twice keeps a value iff going through it once does |
| Oxygen.Decode | connector-plugin/includes/builders.php:364-376 | the peeling loop returns the first depth, 0 to 3, at which the text is a JSON array or object |
| Oxygen.Encode | connector-plugin/includes/builders.php:346-350 | the writing loop puts that many layers back |
| Oxygen.WrittenIsReadBack | connector-plugin/includes/builders.php:336-376 | a tree with a string in it, written with up to three layers, is read back as the same tree at the same depth |
| Oxygen.EditRoundTrip | connector-plugin/includes/builders.php:336-376 | every accepted edit of a decoded value is read back as the edited tree at the recorded depth |
| Oxygen.StoredLayers | connector-plugin/includes/builders.php:346-353 | what the store makes of the written value: one layer less, or at depth 0 the same iff there is no backslash |
| Oxygen.EscapeIsLost | connector-plugin/includes/builders.php:346-353 | at depth 0 a line break in a text comes back as an `n` |
| Oxygen.BomIsIgnored | connector-plugin/includes/builders.php:365 | a byte order mark in front of the JSON makes no difference |
| Adapters.OwnerIsFirst | connector-plugin/includes/builders.php:561-584 | which builder owns a post that several claim, from the stored values that are looked at |
| Adapters.BodyBuild | connector-plugin/includes/patch.php:21-79 | on the four body builders the result of a build in full: the body of the patch or the post, with the passage replaced if that is accepted, and the block after it |
| Adapters.TreeBuild | connector-plugin/includes/patch.php:21-79 | on Elementor, Beaver and Bricks likewise: the edited tree stored, the block in it, handed on, or refused |
| Adapters.OxygenBuild | connector-plugin/includes/builders.php:320-356 | on Oxygen the JSON is edited at the depth it was read at and its shortcode copy dropped, or the shortcodes are edited; bodies and blocks are refused |
| Adapters.EditedIs | connector-plugin/includes/builders.php:50-70 | the edited tree is the tree before with one leaf spliced and nothing else changed |
| Adapters.BodyPublished | connector-plugin/livesov-connector.php:483-506 | after the publish of a replacement the body is the edited body as the filters leave it |
| Adapters.TreePublished | connector-plugin/livesov-connector.php:483-506 | after it the page reads as the edited tree, if that comes back from where it is stored |
| Adapters.OxygenPublished | connector-plugin/livesov-connector.php:483-506 | after it Oxygen's JSON reads as the edited tree, one layer shallower, and the shortcode copy is as it was |
| Patch.Build | connector-plugin/includes/patch.php:21-79 | the three optional steps over one state compute `Patch.Compute` |
| Patch.NoSilentAppend | connector-plugin/includes/patch.php:48-76 | a built block is placed last in the builder's own content, or handed to `the_content` on a builder that runs it, and which of the two is decided by the state; null bodies stay null |
| Patch.AppendPlaces | connector-plugin/includes/builders.php:215-257 | native append keeps the content up to trailing whitespace, or every entry before, and puts the block last, under a key of its own |
| Patch.SectionHolds | connector-plugin/includes/builders.php:407-432 | the Elementor section that is appended holds the block at its widget |
| Patch.BricksHolds | connector-plugin/includes/builders.php:534-549 | the Bricks element that is appended holds the block as its text |
| Patch.SectionShape | connector-plugin/includes/builders.php:413-430 | the appended node is a section with a column with an HTML widget |
| Patch.ElementShape | connector-plugin/includes/builders.php:540-546 | the appended element is a text element at the root |
| Store.PersistKeeps | connector-plugin/includes/builders.php:162-169 | a value survives `persist` iff Elementor slashes it or it has no backslash |
| Store.BlockKeyInjective | connector-plugin/livesov-connector.php:508-510 | blocks have one key only if they are the same block of one instruction, except that no id and the id `lvx` share theirs |
| Store.BlockKeysAre | connector-plugin/livesov-connector.php:508-510 | the keys of the first blocks, with and without an id |
| Connector.Site.StageContent | connector-plugin/livesov-connector.php:440-465 | staging changes the staged record and nothing else |
| Connector.Site.TakeBackup | connector-plugin/livesov-connector.php:536-550 | the snapshot is written unless the one at hand is for this very id |
| Connector.Site.UpdatePost | connector-plugin/livesov-connector.php:495-506 | body and title are one write; a title alone is another, which the code does not mind losing; neither is none |
| Connector.Site.Persist | connector-plugin/includes/builders.php:162-166 | cut off anywhere, persisting has written a prefix of the meta values |
| Connector.Site.RecordAppended | connector-plugin/includes/preview.php:181-186 | reading, setting and writing back the blocks is one keyed write |
| Connector.Site.PublishContent | connector-plugin/livesov-connector.php:467-523 | a publish that dies after any number of writes has done exactly those of its one list of writes |
| Connector.Site.RevertContent | connector-plugin/livesov-connector.php:556-577 | a revert that dies after any number of writes has done exactly those of its one list: the snapshot back, without the body if `wp_update_post` refuses it, then the blocks and the snapshot gone |
| Undo.OtherBackup | connector-plugin/livesov-connector.php:556-577 | of the other events only a revert that completes touches the snapshot: it forgets it |
| Undo.AttemptBackup | connector-plugin/includes/publish.php:34-39 | an attempt replaces the snapshot iff it gets as far as its first write and the snapshot is not its own; no later write does |
| Undo.BlockKeepsSnapshot | connector-plugin/livesov-connector.php:492-550 | through a block of attempts with one id, with reverts that die in between, the snapshot of its first attempt stays |
| Undo.RevertedMeta | connector-plugin/livesov-connector.php:556-577 | after a revert that completes each meta value is back iff it has no backslash; other keys are untouched |
| Undo.RevertedRest | connector-plugin/livesov-connector.php:563-575 | which builders get body and title back, if the update is taken; blocks and snapshot gone; SEO fields and staged record kept |
| Undo.UndoOverRuns | connector-plugin/livesov-connector.php:492-577 | after any history, interrupted publishes and reverts included, a revert that completes restores the state read before the first attempt of the last block, iff that state is restorable; with the body refused, iff the body is still the same |
| Undo.LastBlockIsUnique | connector-plugin/includes/publish.php:34-39 | every history with an effective attempt since the last revert has exactly one last block |
| Undo.ElementorNeverRestored | connector-plugin/livesov-connector.php:492-577 | no history and no revert brings back the state of an Elementor page with a backslash in its JSON |
| Undo.QuotedPageIsLost | connector-plugin/livesov-connector.php:543-569 | publishing an empty patch on one such page, cut off anywhere after the first write, and then reverting leaves another state |
| Publishing.Completed | connector-plugin/livesov-connector.php:476-517 | body, title, meta, SEO fields and blocks of the page after a publish that completes |
| Publishing.ComputedShape | connector-plugin/includes/patch.php:21-79 | a computed change writes each meta key once and hands on at most one block |
| CrashRedo.PutAgain | connector-plugin/includes/preview.php:181-186 | recording the same block again changes nothing iff the other blocks have settled |
| CrashRedo.Absorb | connector-plugin/livesov-connector.php:495-517 | doing some of the writes and then all of them is doing them once |
| CrashRedo.RedoStep | connector-plugin/livesov-connector.php:476-517 | an attempt cut off before the staged record is cleared does not change what a full attempt leads to |
| CrashRedo.CrashRedo | connector-plugin/livesov-connector.php:476-517 | interrupted attempts and then a full one leave the page, backup included, of a single uninterrupted publish |
| CrashRedo.RedoIsExact | connector-plugin/livesov-connector.php:476-517 | after an attempt that died past its block, a full one leaves the page of one publish iff the other blocks have settled |
| CrashRedo.RedoTouchesOthers | connector-plugin/includes/preview.php:181-186 | a page with four recorded backslashes of another instruction, on which redoing is not harmless |
| CrashRedo.RevertRedo | connector-plugin/livesov-connector.php:556-577 | reverts that die anywhere and then a full one leave the page of one uninterrupted revert |
| Redelivery.AppendsOnce | connector-plugin/livesov-connector.php:483-517 | without a staged record a publish writes its block after whatever the body holds |
| Redelivery.SecondDelivery | connector-plugin/livesov-connector.php:483-517 | on the builders that keep their content in the body, a native append delivered again after it completed leaves the body alone iff its block is blank |
| Redelivery.BricksDelivery | connector-plugin/livesov-connector.php:483-517 | a delivery on Bricks appends an element after those that are there, and the page stays a Bricks page |
| Redelivery.BricksDeliveries | connector-plugin/livesov-connector.php:483-517 | any number of deliveries on Bricks leave as many elements more, blank or not |
| Redelivery.ElementorDeliveries | connector-plugin/livesov-connector.php:483-517 | likewise the sections on Elementor, exactly, as long as the trees survive encoding and decoding |
| Redelivery.BeaverSecondDelivery | connector-plugin/livesov-connector.php:508-510 | a block handed on to `the_content` is recorded once even if it is delivered twice; the second delivery leaves the blocks alone iff the others have settled |
| Preview.Viewer.Detect | connector-plugin/includes/preview.php:73-81 | the overlay opens for the staged token until its expiry, and for nothing else |
| Preview.Viewer.FilterContent | connector-plugin/includes/preview.php:115-124 | the staged body is served when there is one, else whatever came in |
| Preview.Viewer.FilterMeta | connector-plugin/includes/preview.php:99-113 | a staged meta value is served when it is set, as itself or as a list of one |
| Preview.Viewer.FilterTitle | connector-plugin/includes/preview.php:126-131 | the staged title is served unless PHP calls it empty, and then whatever came in |
| Preview.Viewer.AppendBlocks | connector-plugin/includes/preview.php:161-179 | recorded and staged blocks are rendered after the content, in order |
| Preview.RenderedIs | connector-plugin/includes/preview.php:177-179 | each block after the content, on a line of its own |
| Preview.PreviewAgrees | connector-plugin/includes/preview.php:99-186 | body, title, meta and blocks as previewed equal those of the published page, each iff a condition on backslashes, filters and keys |
| Preview.StagedPreviewAgrees | connector-plugin/livesov-connector.php:440-512 | so it is for every record that staging leaves |
| StageFirst.StageThenPublish | connector-plugin/livesov-connector.php:440-517 | body, title, meta, blocks and SEO fields published by way of a preview equal those published at once, each iff one more unslashing does not matter; the same SEO fields are written |
| RateLimiter.Limiter.CleanupExpired | trackly-nextjs/src/middleware.ts:191-198 | the walk deletes exactly the expired entries, and only every five minutes |
| RateLimiter.Limiter.CheckRateLimit | trackly-nextjs/src/middleware.ts:200-219 | one request counts into the live window of its key or opens a new one, and is answered by the count: 10 on credential routes, else 300 with a session and 100 without |
| RateLimiter.CleanupInvisible | trackly-nextjs/src/middleware.ts:189-219 | on every run every answer is the one a limiter without deletion gives |
| RateLimiter.WindowBound | trackly-nextjs/src/middleware.ts:155-162 | each window admits at most the limit |
| RateLimiter.IntervalBound | trackly-nextjs/src/middleware.ts:155-219 | every closed interval of a window's length admits at most 2·limit − 1 |
| RateLimiter.BoundIsReached | trackly-nextjs/src/middleware.ts:155-219 | a run on which 2·limit − 1 are admitted, for every limit |
| RateLimiter.DeployedBound | trackly-nextjs/src/middleware.ts:189-219 | the same bound for the limiter with cleanup, any keys interleaved |
| RateLimiter.DenialIsHonest | trackly-nextjs/src/middleware.ts:200-219 | on every run of the deployed limiter a denial names 0 to 60 seconds, the time to the reset rounded up; the key is denied until then, and its first request after is admitted |
| RateLimiter.WaitedAndDenied | trackly-nextjs/src/middleware.ts:205-216 | a run on which a caller waits the 60 seconds it was told and is denied again |
| RateLimiter.WaitedIsAdmitted | trackly-nextjs/src/middleware.ts:205-216 | a request after the whole wait is admitted iff no other with its key came since the reset, or their window is over or has room |
| Polling.LastProgressIs | trackly-nextjs/src/contexts/RunContext.tsx:314-318 | the poll of the last progress was told of more than all before it, and none since of more |
| Polling.StuckIsExact | trackly-nextjs/src/contexts/RunContext.tsx:320-393 | a poll ends the loop as stuck iff the run is still called running and the last progress is more than ten minutes ago |
| Polling.LostIsExact | trackly-nextjs/src/contexts/RunContext.tsx:403-416 | a poll ends the loop as lost iff it is the twentieth failure in a row |
| Polling.EndIsExact | trackly-nextjs/src/contexts/RunContext.tsx:348-385 | a poll ends the loop as finished iff the run is done and comes with its result, and as failed iff it is done without, or in error |
| Polling.GoesOn | trackly-nextjs/src/contexts/RunContext.tsx:299-421 | a poll that does not end the loop uses up stall time or an error, or makes progress |
| Polling.Turn | trackly-nextjs/src/contexts/RunContext.tsx:299-421 | one turn keeps the fields what the answers amount to, and returns exactly if the poll decides, with its verdict |
| Polling.PollRunStatus | trackly-nextjs/src/contexts/RunContext.tsx:282-423 | the loop ends with the first poll that decides and its verdict, within 321 polls per unit of progress; the delays are doubled by failures, short after news, else slowly growing, between 2 and 10 seconds; the rows gathered are the run's rows once each in order |
| PlanHistory.GroupByUser | trackly-nextjs/scripts/backfill-billing-events.ts:165-172 | users in the order of their first row, each with its rows in order |
| PlanRecords.UsersByFirstRow | trackly-nextjs/scripts/backfill-billing-events.ts:164-172 | a user who is listed before another has a row before each of the other's |
| PlanHistory.WalkRow | trackly-nextjs/scripts/backfill-billing-events.ts:176-268 | the branches of the loop body give the event and the next plan of the row |
| PlanHistory.WalkUser | trackly-nextjs/scripts/backfill-billing-events.ts:174-269 | the walk emits each row's event against the plan all earlier rows lead to |
| PlanHistory.BuildInserts | trackly-nextjs/scripts/backfill-billing-events.ts:165-272 | grouping and walking emit the histories of the users, one after the other |
| PlanHistory.HistoryIsFaithful | trackly-nextjs/scripts/backfill-billing-events.ts:173-272 | replaying the emitted rows ends on the running plan, and each row is labelled by the rank order from the plan the rows before it lead to |
| PlanRecords.EveryRowIsRecorded | trackly-nextjs/scripts/backfill-billing-events.ts:150-272 | each row with an owner and one of the three actions gives exactly one event, with type, plans, subscription, details and date as the row has them, unless it is a webhook for the plan the user is on and no renewal; no other row gives any |
| PlanRecords.EveryEventHasItsRow | trackly-nextjs/scripts/backfill-billing-events.ts:165-272 | every event carries the key of a row |
| PlanRecords.CancellationIsSpelt | trackly-nextjs/scripts/backfill-billing-events.ts:201 | a webhook cancels iff its type has cancel, expired or refund in it, in capitals or not |
| PlanRecords.CatalogSellsPlan | trackly-nextjs/scripts/backfill-billing-events.ts:98-110 | which plan a product id is for, the later of two settings with one id counting |
| PlanRecords.RankIsStanding | trackly-nextjs/scripts/backfill-billing-events.ts:81-96 | free and trial below starter below pro below agency below enterprise |
| PlanHistory.PlanIsKnown | trackly-nextjs/scripts/backfill-billing-events.ts:98-110 | a user is always on free or on a plan that is sold |
| PlanHistory.UsersDoNotMix | trackly-nextjs/scripts/backfill-billing-events.ts:150-172 | keeping one user's rows before or after building gives the same events |
| PlanHistory.ScopeIsExact | trackly-nextjs/scripts/backfill-billing-events.ts:133-154 | the scope of a run is a user's rows and no others iff every row in it resolves to the user |
| PlanHistory.ScopedRunIsOwn | trackly-nextjs/scripts/backfill-billing-events.ts:133-172 | over the rows that the application writes, a scoped run emits exactly that user's events of the full run |
| PlanHistory.ScopedRunAgrees | trackly-nextjs/scripts/backfill-billing-events.ts:133-148 | on any rows a scoped run computes for its user what a full run does |
| PlanHistory.ScopedThenFull | trackly-nextjs/scripts/backfill-billing-events.ts:133-305 | a scoped backfill before the full one leaves the table that the full one alone leaves |
| PlanHistory.BillingEvents.ApplyInserts | trackly-nextjs/scripts/backfill-billing-events.ts:274-305 | inserting with `ON CONFLICT DO NOTHING` counts what is new and what is skipped |
| PlanHistory.ApplyTwice | trackly-nextjs/scripts/backfill-billing-events.ts:274-305 | applying twice is applying once |
| PlanHistory.AllKeysDistinct | trackly-nextjs/scripts/backfill-billing-events.ts:177 | audit rows with distinct ids give events with distinct keys, across all users |
| PlanHistory.BackfillStoresAll | trackly-nextjs/scripts/backfill-billing-events.ts:165-305 | a first backfill stores every event it computes, a second one stores none |
| Roster.BuildShortlist | trackly-nextjs/src/data/competitor-roster.ts:219-230 | Livesov, then the roster read cyclically from the entry after the subject |
| Roster.ShortlistLength | trackly-nextjs/src/data/competitor-roster.ts:219-229 | Livesov comes first, and the list has one entry more than the smaller of `size - 1` and the number of rivals |
| Roster.ShortlistAt | trackly-nextjs/src/data/competitor-roster.ts:221-228 | which entry of the roster stands at each rank |
| Roster.PoolIsRoster | trackly-nextjs/src/data/competitor-roster.ts:220 | the pool is the roster with the one entry of the subject cut out |
| Roster.PoolRotates | trackly-nextjs/src/data/competitor-roster.ts:221-228 | counting round the pool is counting round the roster past the subject |
| Roster.NoRepeats | trackly-nextjs/src/data/competitor-roster.ts:208-211 | nobody is listed twice, and the subject not at all |
| Roster.PagesDiffer | trackly-nextjs/src/data/competitor-roster.ts:213-217 | two subjects never share a list, as soon as there is a slot |

## Left out

- SpliceLaws.SpliceTheorem: says nothing of a replacement that leaves a region open (the structure is lost then anyway), nor of one that shows nothing and has a whitespace entity in it.
- Connector.Site.PublishContent: an update of the body that `wp_update_post` refuses is a publish that dies at that write; in the model a write has either happened or not.
- Connector.Site.RevertContent: snapshots with an unknown builder cannot occur because the slug is a datatype.
- CrashRedo.CrashRedo: says nothing of a title-only update that is taken by an interrupted attempt and refused in the end; the new title stays then.
- CrashRedo.RevertRedo: likewise of a body update that is taken on the way and refused in the end.
- Oxygen.EditRoundTrip: that the edited tree survives `wp_json_encode` and `json_decode` is assumed of the host for that one tree.
- Oxygen.StoredLayers: at depth 0 it does not say that a tree whose JSON has other escapes than `\/` is read back differently, which takes a model of JSON strings.
- Polling.PollRunStatus: one loop from the start of a run; the resume path, a second loop, the slow-run hint, statuses other than running, done and error, and React state are not modelled.
- RateLimiter.IntervalBound: assumes one limit per key; a key whose limit changes is not covered.
- Passages.FoundAsItReads: the page is text without markup, and references that stand for whitespace, such as `&nbsp;`, are left to the theorems on all sources.
- Adapters.TreePublished: that the edited tree comes back from the JSON, or from `maybe_unserialize`, is assumed of the host for that one tree; Beaver and Bricks lose a backslash in the store, so there is none.
- Adapters.OxygenPublished: likewise; at depth 0 the JSON has no backslash.
- Ink.SwapIsExact: leaves out the replacements that `SpliceLaws.SpliceTheorem` does; a reference in the result that shows more bytes than it has, such as `&nGt;`, is left to that theorem.
- Redelivery.ElementorDeliveries: that the trees survive `wp_json_encode` and `json_decode` is assumed of the host for just these trees; a page whose JSON cannot be read hands the block on, as Beaver does.
- Patch.NullBodyStaysNull: that the body is null exactly on layout builders unfolds the definitions; a remark.
- Patch.BuildDecision: a remark that unfolds the definitions, kept because later results read better with it.
- Preview.StagingIsInvisible: likewise.
- WordPress and PHP library functions are parameters: entity decoding, JSON, `maybe_unserialize`, and the filters of `wp_update_post`. Random ids and tokens, and clocks, are parameters too.
- One `char` is one byte; bytes above 255 cannot occur in the source and are harmless in the model.
- The `(string)` cast of a number, and keys that differ only as integer and numeric string, which PHP's arrays already identify.
- PHP objects inside Beaver data are values: that the rebuilding walk writes into the decoded object itself is not captured.
- The key that PHP gives to `$a[] = …` is taken to be one more than the largest integer key, as it is for freshly decoded arrays.
- Error messages are datatypes, not texts; labels, slugs and time stamps of records are left out.
- `seo.php` is one write of a map of fields; caches, revisions, the pull protocol, acknowledgements, the admin page and self-update are left out.
- Resolving a page from its URL, HMAC, tokens, CSRF and path lists: no functional property beyond a lookup.
- JavaScript's inherited property names in the product map of the backfill, the dry run and the printed summary.
- The other content modules, decision tables, command-line clients and components of the web application: static data, straight-line code or user interface.
