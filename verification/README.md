# Masking documents, approving requests, caching settings

A Dafny model of three parts of the XGEN SDK, and proofs of what they promise.

* **Masking documents.** Rules find sensitive text and replace it, one rule after the other (`Rules`). A second algorithm
  finds the same changes as spans of the original text, with a piece list, a work queue and a union-find over replaced
  regions (`Spans`, `MaskedSpans`). The spans are then put back into what the text came from: the runs of Office and
  zipped Hangul documents (`Distribute`, `Pieces`, `Ooxml`, `Hwpx`), HTML with its tags and character references (`HtmlScan`,
  `HtmlClosing`, `HtmlTags`, `HtmlSegments`, `HtmlParts`, `HtmlText`, `HtmlSafe`, `HtmlEscapes`, `HtmlMask`, `HtmlSearch`), and the
  paragraphs of Hangul 5.0 documents, whose control codes must survive and whose side tables must move along (`HwpUnits`,
  `HwpRewrite`, `HwpMoves`, `HwpPlaces`, `HwpPositions`, `HwpTables`, `HwpParagraph`, `HwpReads`, `HwpRecords`, `HwpNumbers`,
  `HwpSameLength`). These documents live in compound files, which are read and written whole (`CfbFormat`, `CfbAlloc`, `CfbTree`,
  `CfbEntry`, `CfbNameOrder`, `CfbRead`, `CfbHeader`, `CfbImage`, `CfbFields`, `CfbVolume`, `CfbOpen`, `CfbLinks`, `CfbDirectory`,
  `CfbLinking`, `CfbWrite`, `CfbBytes`, `CfbUnused`, `CfbFile`, `CfbRoundTrip`, `CfbLimits`).
* **Approving requests.** The rules of a line of approvers (`ApprovalEngine`), the SQL statements that carry them out
  (`ApprovalStore`), any number of callers between whose statements anything may happen (`ApprovalRuns`, `ApprovalRace`), forms
  that approvers fill (`ApprovalEvidence`, `ApprovalFills`), and settling a decided request once (`ApprovalSettlement`).
* **Caching settings.** The per-pod value cache in front of a shared store with a version counter (`ConfigCache`,
  `ConfigCacheOwn`, `ConfigCacheRecheck`).

`Base` and `Rounding` hold what several parts share.

The main results:

* `MaskedSpans.FindMaskedSpans`: the fast span finder refines the plain rewrite.
* `CfbRoundTrip.RoundTrip`: reading what was written, as an if-and-only-if; `CfbFile.Write` with `CfbBytes.WrittenRight`
  and `CfbUnused.UnusedIsRight`: the written file byte by byte.
* `HwpMoves.RewriteConserves`, `HwpReads.SplicedReads` and `HwpParagraph.LooksKept`: a rewritten paragraph keeps its controls, reads as
  the masked text (exactly when), and what survives keeps its looks.
* `HtmlMask.MaskHtmlDocument` with `HtmlSearch.HeldIsMasked` and `OpenIsMasked`: which places of an HTML document are searched, and that
  nothing the rules hide is left there; `HtmlTags.TagEndIsRead`: where a tag ends.
* `Ooxml.MaskPart` and `HwpParagraph.MaskParagraph`: whole parts and paragraphs; with `HtmlMask.SegmentKept` and
  `Ooxml.TogetherKeepsOthers`: what the rules leave alone keeps its bytes.
* `ApprovalRuns.RunsAreSafe` and `RunsLast` (all interleavings), `ApprovalStore.Ledger.DecideAlone` (refinement),
  `ApprovalEvidence.EvidenceIsFrozen`, `ApprovalSettlement.HooksRunOnce`.
* `ConfigCache.CacheIsFresh` and `ConfigCacheRecheck.DueIsFresh`: how fresh the cache's answers are, in every run.
* Where a promise fails, exactly when: `CfbNameOrder.SortedByUnits`, `HtmlSegments.DepartsAtTheEnd`, `HtmlSafe.RawSafeExactly`,
  `ScriptSafeExactly` and `EscapedExactly`, `ApprovalRace.WithdrawnWithApproval`, `ApprovalFills.EvidenceIsWritten` and `EmptyExactly`,
  `ConfigCacheOwn.OwnWriteExactly`, `ConfigCacheRecheck.OlderExactly`.

`dafny verify dfyconfig.toml` checks the project with Dafny 4.11. Loops of the source are methods with invariants; each is
proved against a function that says what it computes, and lemmas prove what the source promises about that function. Lemmas
carry `{:induction false}`: every induction is written out. Proofs that only combine other lemmas begin with `hide *`.

## How the source is read

* Regular expressions, `str.upper`, `html.unescape`, `xml_escape` and white space are parameters. Of `finditer` only this is
  used: matches come in order and do not overlap (they may be empty); of a mask template, that expanding it may fail; of
  `xml_escape`, that `html.unescape` undoes it; of white space in HTML, that none of `>`, `/`, `=` and the quotes is any.
* Masked text is a sequence of code points, lone surrogates included; Hangul paragraphs are also modelled in bytes and 16-bit
  code units. A character of a compound-file name is a Unicode scalar value.
* `round` on a quotient is rounding halves to even of the exact quotient. The program divides floating-point numbers; for
  masks and matches whose lengths multiply to less than 2^52 that is the same.
* Each SQL statement, each section under the cache lock and each request to the shared store is one atomic step.
* Times are integers that callers pass in.

## Where the code differs from its description

* `_cfb.py:182-184`: names of equal length are compared by code point after `str.upper`, although the comment (and [MS-CFB]
  section 2.6.4) says UTF-16 code units (`CfbNameOrder.OrdersDiffer`). A directory is in the promised order exactly if no two
  siblings clash (`CfbNameOrder.SortedByUnits`).
* `_cfb.py:123-125, 187-328`: the writer stores 64-bit stream sizes and any depth; a version 3 reader looks at the low half only
  and stops at depth 64. `CfbFile.Write` has the exact condition, `CfbLimits` trees that fail it.
* `files.py:244-270`: a `<` at the very end of a document counts as markup, although the docstring says that a `<` opens a tag only
  before a letter, `/`, `!` or `?`: the empty string that follows it is contained in the list of marks
  (`HtmlSegments.OpenAtTheEnd`; exactly when: `HtmlSegments.DepartsAtTheEnd`).
* `files.py:298-300`: a mask in a comment, CDATA section or script is to be kept from closing it; together with its neighbours it
  can still do so (`HtmlSafe.MaskClosesComment`, `MaskClosesScript`; exactly when: `HtmlSafe.RawSafeExactly`, `ScriptSafeExactly`).
* `files.py:303-305`: an escaped mask is not to become a tag. Behind a `<` that is text it can open one (`HtmlSafe.MaskOpensTag`;
  exactly when: `HtmlSafe.EscapedExactly`).
* `store.py:1593-1656`: what an approver has seen is not to change, and approved requests are to be complete. For operations
  that run alone this holds (`ApprovalEvidence`); `fill_block` looks first and writes later without a condition, so between the
  statements of several callers it does not, unless the request has a follow-up line and is locked
  (`ApprovalFills.ApprovedThenEmptied`; exactly when: `ApprovalFills.EvidenceIsWritten`, `EmptyExactly`).
* `store.py:664-720`: a requester's withdrawal that overlaps an approval can end in a canceled request with an approved step
  (`ApprovalRace.WithdrawnAfterApproval`; exactly when: `ApprovalRace.WithdrawnWithApproval`). Run alone it cannot
  (`ApprovalEngine.CancelKeepsShape`).
* `redis_config.py:423-427`: the writes of other pods are to be seen within the recheck interval. A call that finds the interval over
  does ask, but it can come back with an older version and answer from before such a write (`ConfigCacheRecheck.OlderIsAnswered`;
  exactly when: `ConfigCacheRecheck.OlderExactly`).
* `redis_config.py:756-758`: a pod does not always see its own write at once (`ConfigCacheOwn.OwnWriteIsMissed`; exactly when:
  `ConfigCacheOwn.OwnWriteExactly`).
* `_hwp.py:146-162`: the guards that keep a place from lying before the mask text already written never change anything
  (`HwpRewrite.GoalMonotone`).

## Model

| member | source | states |
|---|---|---|
| `Rules.PartialMaskFailsClosed` | src/xgen_sdk/control_policy/rules.py:36-59 | Partial masking keeps the length; whatever character survives is a preserved separator or lies in a kept end, and the kept ends never make up a whole match. |
| `Rules.PartialMaskSays` | src/xgen_sdk/control_policy/rules.py:36-59 | What partial masking keeps: with something left between the kept ends, both ends as they are; with the format preserved, every separator; everything else, and all of a match that the ends would use up, becomes the mask character, an asterisk if none is given. |
| `Rules.PhoneNumber` | src/xgen_sdk/control_policy/rules.py:46-59 | The example of the docstring: 010-1234-5678 with four characters kept at the end becomes ***-****-5678. |
| `Rules.ReplacementSays` | src/xgen_sdk/control_policy/rules.py:83-109 | What stands in place of a match: in full mode the expanded template, and four asterisks only where the template cannot be expanded; in partial mode the match with exactly its inside masked, character by character; nothing for an empty match. |
| `Rules.OneMatch` | src/xgen_sdk/control_policy/rules.py:95-113 | A rule that matches in one place replaces that place, leaves what is before and behind it, and counts one. |
| `Rules.SubstituteSkipsEmpty` | src/xgen_sdk/control_policy/rules.py:95-113 | Substituting over all matches equals splicing the replacements of the non-empty ones: an empty match adds nothing. |
| `Rules.EmptyText` | src/xgen_sdk/control_policy/rules.py:256-299 | An empty text stays empty and counts no hit, under any rules. |
| `Rules.ApplyRules` | src/xgen_sdk/control_policy/rules.py:256-299 | The rule-by-rule rewrite: the text is the fold of all rules (or the original in detection mode) and the total counts each rule's matches on the text that rule searched. |
| `Rules.DetectedIsSum` | src/xgen_sdk/control_policy/rules.py:256-299 | The total is the sum of what each rule finds on the text that it searches. |
| `Spans.SplitPiece` | src/xgen_sdk/control_policy/rules.py:324-341 | Cutting a piece in two changes neither the text shown nor the invariant of pieces and blocks. |
| `Spans.Find` | src/xgen_sdk/control_policy/rules.py:318-322 | The root lookup with path halving returns the root of the unit and leaves every other unit's root as it was. |
| `Spans.ReplaceRun` | src/xgen_sdk/control_policy/rules.py:347-373 | Putting one mask in place of a run of pieces, as a new unit that takes over the roots it touched, keeps the invariant: raw stretches, root intervals and empty masks cover the original text in order. |
| `Spans.ApplyMatch` | src/xgen_sdk/control_policy/rules.py:336-373 | One match: the pieces then show the old text with that match replaced, at most two pieces and exactly one unit are added. |
| `Spans.ApplyRule` | src/xgen_sdk/control_policy/rules.py:329-376 | One rule over all its matches: the pieces show exactly what splicing the rule's replacements gives, with origins; the piece count grows by at most twice the matches. |
| `MaskedSpans.NextRule` | src/xgen_sdk/control_policy/rules.py:329-376 | Rule after rule the pieces show the traced rule-by-rule rewrite of the text. |
| `MaskedSpans.SpliceIsCurrent` | src/xgen_sdk/control_policy/rules.py:377-402 | Splicing the spans of the blocks into the original gives what the pieces show, every character with its origin. |
| `MaskedSpans.OutsideIsSurvival` | src/xgen_sdk/control_policy/rules.py:377-402 | A character lies outside all spans exactly if it is one of the original characters that survive. |
| `MaskedSpans.Merge` | src/xgen_sdk/control_policy/rules.py:403-409 | Sorting and merging turns spans of roots and of empty masks nested in them into the disjoint list, with each text kept. |
| `MaskedSpans.FindMaskedSpans` | src/xgen_sdk/control_policy/rules.py:302-409 | The spans are sorted, non-empty and disjoint; splicing them into the text gives exactly the rule-by-rule rewrite, every character with its origin, for every rule list, so that each mask stands where the rules put it; they cover exactly the characters that do not survive. (Its loop also keeps the piece count within one plus twice the matches so far.) |
| `MaskedSpans.SurvivingIsApart` | src/xgen_sdk/control_policy/rules.py:377-409 | No span shares a character with a stretch whose characters all survive; a text that survives whole has no spans and is its own rewrite. |
| `CfbTree.MidpointIsRedBlack` | src/xgen_sdk/control_policy/_cfb.py:331-354 | Painting the deepest level red unless it is full makes any midpoint-split tree red-black: black root, no red node with a red child, equal black counts. |
| `CfbTree.DeepestBalanced` | src/xgen_sdk/control_policy/_cfb.py:331-347 | Midpoint splitting makes the tree as flat as possible: n entries reach depth floor(log2 n). |
| `CfbTree.InOrderBalanced` | src/xgen_sdk/control_policy/_cfb.py:339-347 | The in-order walk of the built tree is the sibling list. |
| `CfbTree.Build` | src/xgen_sdk/control_policy/_cfb.py:339-347 | In place, `build` links exactly the tree of its stretch, notes its levels and touches no other entry. |
| `CfbTree.MakeTree` | src/xgen_sdk/control_policy/_cfb.py:331-354 | For every non-empty list of distinct siblings the links then hold a valid red-black tree whose in-order walk is that list; other entries and all child pointers are unchanged. |
| `CfbEntry.SortedIsPermutation` | src/xgen_sdk/control_policy/_cfb.py:204-206 | Ordering siblings only permutes them. |
| `CfbEntry.SortedIsInOrder` | src/xgen_sdk/control_policy/_cfb.py:182-184 | Neighbours in the ordered list are in key order: shorter UTF-16 form first, then upper-cased text by code point. |
| `CfbNameOrder.KeysAgree` | src/xgen_sdk/control_policy/_cfb.py:182-184 | The code's order of two names and the order by UTF-16 code units agree exactly if the names do not clash: equally long, and first differing, in upper case, between a character beyond the basic plane and one of U+E000..U+FFFF. |
| `CfbNameOrder.SortedByUnits` | src/xgen_sdk/control_policy/_cfb.py:182-206 | Siblings are written in the order of [MS-CFB] section 2.6.4 if and only if no two of their names clash. |
| `CfbNameOrder.OrdersDiffer` | src/xgen_sdk/control_policy/_cfb.py:182-184 | Two names, U+10000 and twice U+E000, that clash: the code puts them the other way round. |
| `CfbEntry.ReturnedIsPermutation` | src/xgen_sdk/control_policy/_cfb.py:161-175 | The order in which the sibling stack returns children is a permutation of them. |
| `CfbFormat.NameRoundTrip` | src/xgen_sdk/control_policy/_cfb.py:150-151 | Decoding the UTF-16 form of any name gives the name back, surrogate pairs included. |
| `CfbFormat.WordsRoundTrip` | src/xgen_sdk/control_policy/_cfb.py:101-105 | Unpacking packed 32-bit words gives them back. |
| `CfbAlloc.FatCountIsLeast` | src/xgen_sdk/control_policy/_cfb.py:236-243 | The sizing iteration ends at a fixpoint whose FAT covers every sector, its own and the DIFAT's included, and no smaller FAT does. |
| `CfbAlloc.SizeFat` | src/xgen_sdk/control_policy/_cfb.py:234-243 | The `while True` loop ends for every amount of data with the least sufficient FAT and DIFAT counts. |
| `CfbAlloc.Place` | src/xgen_sdk/control_policy/_cfb.py:248-257 | Placing writes one chain at the cursor and nothing else. |
| `CfbAlloc.Chain` | src/xgen_sdk/control_policy/_cfb.py:105-113 | The chain loop with its visited set follows the table, and fails on rings and numbers outside it. |
| `CfbAlloc.FollowExactly` | src/xgen_sdk/control_policy/_cfb.py:105-113 | Following yields the chain of distinct sectors that starts there and ends with no sector number, and fails exactly if there is none. |
| `CfbAlloc.FollowChain` | src/xgen_sdk/control_policy/_cfb.py:105-113 | A placed chain is followed from its first sector to its last. |
| `CfbRead.CollectFatSectors` | src/xgen_sdk/control_policy/_cfb.py:91-101 | The DIFAT loop lists header slots, then each DIFAT sector's, and notices rings. |
| `CfbHeader.HeaderExactly` | src/xgen_sdk/control_policy/_cfb.py:76-84 | By its bytes: a file is read with sectors of 512 or of 4096 bytes exactly if it begins with the signature and has FE FF, shift 9 or 12, and 6 at 0x1C; a wrong signature or a short file is no compound file, anything else a broken header. |
| `CfbHeader.EncodeSays` | src/xgen_sdk/control_policy/_cfb.py:293-308 | Names are written in UTF-16, the first byte of a unit counting least. |
| `CfbHeader.DecodeSays` | src/xgen_sdk/control_policy/_cfb.py:150-151 | From any bytes, pairs of surrogates are read as one character; every other surrogate, and a byte left over, as U+FFFD. |
| `CfbHeader.NameSays` | src/xgen_sdk/control_policy/_cfb.py:147-151 | The name of an entry is decoded from as many bytes as its length says, less the two of its end, never more than 62. |
| `CfbHeader.SizeSays` | src/xgen_sdk/control_policy/_cfb.py:119-121 | The size of a stream is the little-endian number in the last eight bytes of its record, in version 3 in the first four of these. |
| `CfbRead.CollectSiblings` | src/xgen_sdk/control_policy/_cfb.py:161-175 | The sibling stack loop visits what the tree walk says, and notices rings and bad numbers. |
| `CfbRead.StreamBytes` | src/xgen_sdk/control_policy/_cfb.py:115-145 | Byte i of a stream that is returned is byte i of its chain: of the chained sectors of the file, or of the chained mini sectors of the mini stream. |
| `CfbRead.EntryIsReadable` | src/xgen_sdk/control_policy/_cfb.py:123-175 | Whatever the bytes are, a version 3 file yields no stream of 4 GiB or more and no storage deeper than 64. |
| `CfbImage.PlanSuffices` | src/xgen_sdk/control_policy/_cfb.py:229-243 | The planned FAT and DIFAT are enough for all sectors of the file. |
| `CfbImage.StreamAt` | src/xgen_sdk/control_policy/_cfb.py:210-226 | Every stored stream lies in a row of units, padded, and is chained in that row. |
| `CfbFields.RecordName` | src/xgen_sdk/control_policy/_cfb.py:298-318 | Name, kind and colour of a written directory record are read back. |
| `CfbFields.RecordPointers` | src/xgen_sdk/control_policy/_cfb.py:313 | Left, right and child of a written record are read back. |
| `CfbFields.RecordPlain` | src/xgen_sdk/control_policy/_cfb.py:314-317 | CLSID, state bits and times of a written record are read back. |
| `CfbFields.HeaderFields` | src/xgen_sdk/control_policy/_cfb.py:276-284 | A written header is recognised and its words are read back. |
| `CfbVolume.ImageIsPlaced` | src/xgen_sdk/control_policy/_cfb.py:276-328 | All regions of a written file lie where the plan says. |
| `CfbVolume.DifatFrom` | src/xgen_sdk/control_policy/_cfb.py:94-101 | Following the DIFAT lists exactly the remaining FAT sectors, in order. |
| `CfbVolume.FatFound` | src/xgen_sdk/control_policy/_cfb.py:90-104 | Header and DIFAT together give back the written FAT. |
| `CfbVolume.RegularRow` | src/xgen_sdk/control_policy/_cfb.py:115-116 | A region whose sectors are chained in a row is read back whole. |
| `CfbOpen.OpenFinds` | src/xgen_sdk/control_policy/_cfb.py:75-133 | Opening a written file finds its FAT, mini FAT, mini stream and directory. |
| `CfbOpen.StreamFound` | src/xgen_sdk/control_policy/_cfb.py:135-145 | Every stream below 4 GiB is read back, from the mini stream or from its own sectors. |
| `CfbLinks.ReadOrderPick` | src/xgen_sdk/control_policy/_cfb.py:161-175 | Reading order commutes with renumbering the entries. |
| `CfbDirectory.Number` | src/xgen_sdk/control_policy/_cfb.py:193-198 | Numbering appends an entry, then everything below it, and notes the numbers of its children. |
| `CfbDirectory.KidsDisjoint` | src/xgen_sdk/control_policy/_cfb.py:193-206 | No entry is the child of two parents, and children have larger numbers. |
| `CfbLinking.LinkAll` | src/xgen_sdk/control_policy/_cfb.py:201-206 | After the loop every storage points to the red-black tree of its ordered children, and nothing else has a child. |
| `CfbWrite.CollectMini` | src/xgen_sdk/control_policy/_cfb.py:208-226 | Small streams fill the mini stream and its table, with their start numbers. |
| `CfbWrite.BuildFat` | src/xgen_sdk/control_policy/_cfb.py:245-271 | The FAT is, in order, the chains of large streams, mini stream, mini FAT and directory, then the marks of FAT and DIFAT sectors, then free entries; the numbers they hold are said in CfbBytes.FatEntries. |
| `CfbBytes.FatEntries` | src/xgen_sdk/control_policy/_cfb.py:244-266 | In numbers: a FAT entry is 0xFFFFFFFD exactly for a FAT sector, 0xFFFFFFFC exactly for a DIFAT sector, 0xFFFFFFFF exactly beyond the last sector of the file, and below these it is a sector of the file. |
| `CfbBytes.ImageIsMarked` | src/xgen_sdk/control_policy/_cfb.py:244-328 | Read from the bytes of the file: the sectors listed in header and DIFAT, and no others, are marked as FAT sectors, the DIFAT sectors as such, entries beyond the file and no others as free; the counts at 0x2C and 0x48 are the numbers of entries of the two kinds. |
| `CfbBytes.FitSays` | src/xgen_sdk/control_policy/_cfb.py:304-309 | A field of fixed length holds what fits of class or time, and zeros behind it. |
| `CfbBytes.EntryIsRight` | src/xgen_sdk/control_policy/_cfb.py:268-301 | Byte by byte, at its literal offsets: the record of every entry has its name, length, kind, colour, links, class, state, times, start and size, and its data lie in the sectors from that start, padded with zeros. |
| `CfbBytes.ChildIsRight` | src/xgen_sdk/control_policy/_cfb.py:186-206 | The child of a storage or of the root is a black entry of the directory, and no other entry has a child. |
| `CfbFile.Directory` | src/xgen_sdk/control_policy/_cfb.py:296-322 | The directory bytes are one record per entry and empty records to the end of the sector; a name over 31 units is an error. |
| `CfbFile.DifatBytes` | src/xgen_sdk/control_policy/_cfb.py:319-327 | Each DIFAT sector holds 127 slots and the number of the next one. |
| `CfbFile.Write` | src/xgen_sdk/control_policy/_cfb.py:187-328 | Writing succeeds exactly if every packed field fits; the result is the planned image; and for every well-formed tree reading it back gives the tree (up to sibling order, stream times and padding) exactly if the root is a root, storages are at most 64 deep and every stream is below 4 GiB; for every well-formed tree header, FAT marks, records, data and everything unused are byte by byte as the next rows say. |
| `CfbBytes.WrittenRight` | src/xgen_sdk/control_policy/_cfb.py:187-328 | Every file that is written has the right header, a FAT marked as said above and, for every entry, the right record and data. |
| `CfbUnused.UnusedIsRight` | src/xgen_sdk/control_policy/_cfb.py:248-328 | And what no entry uses: the slots of header and DIFAT list the FAT sectors in order and are free (0xFFFFFFFF) behind them, each DIFAT sector names the next and the last one 0xFFFFFFFE; the mini FAT is free behind the chains and the mini stream zero behind the data; unused directory records are zero but for three times 0xFFFFFFFF. |
| `CfbRoundTrip.WalkTree` | src/xgen_sdk/control_policy/_cfb.py:161-175 | The sibling stack visits a whole linked tree before anything below it on the stack. |
| `CfbRoundTrip.EntryFound` | src/xgen_sdk/control_policy/_cfb.py:147-160 | An entry held by the volume is read back with everything below it. |
| `CfbRoundTrip.RoundTrip` | src/xgen_sdk/control_policy/_cfb.py:75-328 | Read after write is the identity on normal forms if and only if the tree can be represented by version 3. |
| `CfbLimits.TooDeep` | src/xgen_sdk/control_policy/_cfb.py:147-328 | Well-formed trees that fail it: any root with storages nested more than 64 deep. |
| `CfbLimits.TooLarge` | src/xgen_sdk/control_policy/_cfb.py:123-125 | And any root with a stream of 4 GiB or more. |
| `HwpUnits.ReadUnits` | src/xgen_sdk/control_policy/_hwp.py:75-94 | Reading a payload fails exactly for an odd byte count or a cut-off control code; otherwise the units are well formed, make up the payload byte for byte, and carry its controls and ordinary code units in order. |
| `HwpUnits.UnitsAreThePayload` | src/xgen_sdk/control_policy/_hwp.py:75-94 | Parsing loses nothing: the raw units make up the paragraph. |
| `HwpUnits.UnitsSplit` | src/xgen_sdk/control_policy/_hwp.py:75-94 | The units carry exactly the control codes and the ordinary code units of the paragraph, in order. |
| `HwpUnits.CollectText` | src/xgen_sdk/control_policy/_hwp.py:97-105 | The searched text and, for every character, its unit. |
| `HwpUnits.OwnerIs` | src/xgen_sdk/control_policy/_hwp.py:97-105 | Every character has its own unit, at the place the lengths before it add up to. |
| `HwpNumbers.ControlsSay` | src/xgen_sdk/control_policy/_hwp.py:36-40 | The list of the eight-unit control codes, and what the visible ones look like. |
| `HwpNumbers.BytesSay` | src/xgen_sdk/control_policy/_hwp.py:75-94 | Of the two bytes of a code unit the first counts least. |
| `HwpNumbers.EncodeSays` | src/xgen_sdk/control_policy/_hwp.py:143-165 | A character beyond the basic plane becomes two surrogates that hold its upper and lower ten bits, any other itself. |
| `HwpRewrite.SpansFit` | src/xgen_sdk/control_policy/_hwp.py:138-140 | Disjoint spans of the searched text lie in order on its units. |
| `HwpRewrite.GoalMonotone` | src/xgen_sdk/control_policy/_hwp.py:146-162 | Later units of a span belong later in its mask, so the guard against going back never moves anything. |
| `HwpPlaces.GoalSays` | src/xgen_sdk/control_policy/_hwp.py:146-162 | The place of a unit in the mask is the whole number nearest to its proportional place, of two equally near the even one; only a control code that shows as the last character of the match comes behind the mask. |
| `HwpPlaces.SpanSpotsSay` | src/xgen_sdk/control_policy/_hwp.py:138-165 | Every unit of a match, kept or removed, ends up behind exactly the part of the mask and the control codes that come before it; it is kept exactly if it is a control code. |
| `HwpRewrite.Rewrite` | src/xgen_sdk/control_policy/_hwp.py:116-169 | The constructor's loops build exactly the specified text and place of every unit: control codes at their proportional place in the mask. |
| `HwpMoves.SplitSpan` | src/xgen_sdk/control_policy/_hwp.py:138-165 | Inside a span the control codes stay in order and the mask comes out whole, however it is broken up between them. |
| `HwpMoves.RewriteConserves` | src/xgen_sdk/control_policy/_hwp.py:75-169 | Parsing the new paragraph gives every control code back, byte for byte and in order; all other code units are the unmatched ones with each span's replaced by its whole sanitised mask. |
| `HwpReads.SafeMaskSays` | src/xgen_sdk/control_policy/_hwp.py:51-53 | A sanitised mask has the length of the mask, its characters from 32 on and spaces for the others; it is the mask itself exactly if there are no others. |
| `HwpReads.OutputReads` | src/xgen_sdk/control_policy/_hwp.py:97-169 | For any mixture of control codes: the new paragraph reads as the old characters outside the matches and, for each match, its sanitised mask with the characters of the control codes at their places in it. |
| `HwpReads.SplicedReads` | src/xgen_sdk/control_policy/_hwp.py:97-169 | A paragraph of whole characters reads afterwards as its text with the sanitised masks in place of the matches if and only if no matched character belongs to a control code. |
| `HwpReads.MaskedReads` | src/xgen_sdk/control_policy/_hwp.py:97-169 | With printable masks that is exactly the rule-by-rule rewrite of its text. |
| `HwpReads.ParsedIsWhole` | src/xgen_sdk/control_policy/_hwp.py:75-94 | What a payload without lone surrogates is parsed into are whole characters. |
| `HwpPositions.SpotsAscend` | src/xgen_sdk/control_policy/_hwp.py:116-169 | The new places of the units come in order and stay within the new text. |
| `HwpPositions.SurvivesExactly` | src/xgen_sdk/control_policy/_hwp.py:138-169 | A code unit of the paragraph is still there after the rewriting if and only if it belongs to a control code or to a unit outside all spans. |
| `HwpPositions.PositionMonotone` | src/xgen_sdk/control_policy/_hwp.py:171-177 | Positions never change their order, and nothing joins a code unit that survived. |
| `HwpPositions.PositionEnd` | src/xgen_sdk/control_policy/_hwp.py:171-173 | The old end becomes the new end, and what follows keeps its distance. |
| `HwpPositions.FindPosition` | src/xgen_sdk/control_policy/_hwp.py:171-177 | The binary search finds the position the units and their places define. |
| `HwpTables.MovedRises` | src/xgen_sdk/control_policy/_hwp.py:248-257 | The re-based list of character shapes rises strictly, whatever the old list was. |
| `HwpParagraph.HeaderSays` | src/xgen_sdk/control_policy/_hwp.py:239-262 | The new header counts the new text and its shapes and no cached lines; its top bit and every other byte stay. |
| `HwpNumbers.FieldsSay` | src/xgen_sdk/control_policy/_hwp.py:239-269 | What fits: a text length, places and range ends below 2^32, a number of shapes below 2^16. |
| `HwpParagraph.MaskParagraph` | src/xgen_sdk/control_policy/_hwp.py:222-273 | The whole paragraph, with the spans the rules give: nothing without a text or a hit; errors exactly for an odd byte count, a cut-off control code or a count that does not fit; otherwise the text and the place of every unit are those of the rewriting, controls are conserved, shapes rise strictly, shapes and ranges are moved by these places, and the header is the new one with no cached lines. What the new text reads as is said in HwpReads. |
| `HwpParagraph.LooksKept` | src/xgen_sdk/control_policy/_hwp.py:116-269 | In the masked paragraph every code unit of a control code and every one outside the spans is at its new position, with the character shape in force that was in force before (for a sorted shape list) and inside the same ranges as before. |
| `HwpParagraph.StaysExactly` | src/xgen_sdk/control_policy/_hwp.py:222-232 | Of a unit that is no control code the code units stay exactly if its character survives the rules. |
| `HwpRecords.Records` | src/xgen_sdk/control_policy/_hwp.py:192-209 | The record loop parses the stream or fails on a cut-off record. |
| `HwpNumbers.FirstRecordSays` | src/xgen_sdk/control_policy/_hwp.py:192-209 | By its numbers: 10 bits of tag, 10 of level, 12 of length, 4095 there for a length in the next word; a record is cut off exactly if it is longer than what is there. |
| `HwpNumbers.PackSays` | src/xgen_sdk/control_policy/_hwp.py:212-219 | A changed record is written with these numbers, with the second word from 4095 bytes on. |
| `HwpRecords.RecordsRoundTrip` | src/xgen_sdk/control_policy/_hwp.py:192-219 | Changed and unchanged records, packed and parsed again, have the same tags, levels and payloads, also across the switch to long headers. |
| `HwpRecords.ParsingPreserves` | src/xgen_sdk/control_policy/_hwp.py:192-219 | The raw bytes of parsed records make up the stream, and each record agrees with its bytes. |
| `HwpSameLength.MaskSameLength` | src/xgen_sdk/control_policy/_hwp.py:311-335 | The result has as many UTF-16 code units as the original and differs only inside the spans the rules give, where each has its mask cut or filled with stars; without a hit it is the original. |
| `HwpSameLength.PrefixFits` | src/xgen_sdk/control_policy/_hwp.py:322-331 | The kept part of a mask is the longest prefix that fits. |
| `HwpSameLength.FittedSays` | src/xgen_sdk/control_policy/_hwp.py:322-333 | What is written for a match begins with the longest part of the mask that fits, the rest of its length is asterisks. |
| `HwpSameLength.FitsAreKept` | src/xgen_sdk/control_policy/_hwp.py:311-335 | The masks go in unchanged exactly if each is printable and as long as what it replaces. |
| `HwpSameLength.SameLengthMasked` | src/xgen_sdk/control_policy/_hwp.py:311-335 | Then the result is the rule-by-rule rewrite. |
| `Rounding.RoundWithin` | src/xgen_sdk/control_policy/_hwp.py:152-161 | Rounding a proportional place stays within the mask and hits both ends exactly. |
| `Rounding.NearestIsRound` | src/xgen_sdk/control_policy/_hwp.py:152-161 | Rounding gives the one nearest whole number, of two equally near the even one. |
| `Distribute.RangeJoin` | src/xgen_sdk/control_policy/_hwp.py:760-792 | What a stretch of text becomes does not depend on where it is cut. |
| `Distribute.AllGiven` | src/xgen_sdk/control_policy/_hwp.py:760-792 | Pieces that hold what their stretches became join to the spliced text: no character and no mask is lost or doubled. |
| `Pieces.ProportionalFair` | src/xgen_sdk/control_policy/_hwp.py:779-784 | Sharing masks in proportion hands out each mask exactly once. |
| `Pieces.ProportionalSays` | src/xgen_sdk/control_policy/_hwp.py:779-784 | The share of a mask before a place is the whole number nearest to the proportion of the match before it. |
| `Pieces.DistributeInProportion` | src/xgen_sdk/control_policy/_hwp.py:760-792 | Each piece that a span reaches, and no other, gets what its stretch becomes. |
| `Hwpx.MaskParagraph` | src/xgen_sdk/control_policy/_hwp.py:799-818 | With the spans the rules give for the joined segments, exactly the segments a span reaches are written anew, each with its proportional share of the masks, in order. |
| `Hwpx.ParagraphIsMasked` | src/xgen_sdk/control_policy/_hwp.py:799-818 | The new texts of the segments, joined, are the masked joined text; a segment with text gets a new one exactly if not all its characters survive the rules. |
| `Hwpx.SegmentReadsBack` | src/xgen_sdk/control_policy/_hwp.py:745-753 | What is written into a segment reads back as the text exactly if the text has no forbidden control character and, for CDATA, no closing mark; and it never closes the CDATA section. |
| `Hwpx.BlankSays` | src/xgen_sdk/control_policy/_hwp.py:745-753 | What is written is the text with a space for every control character but tab and line feed, escaped, or in a CDATA section with a space inside every closing mark. |
| `Pieces.AtStartFair` | src/xgen_sdk/control_policy/files.py:425-463 | Giving a mask whole to the node where its match starts hands out each mask exactly once. |
| `Pieces.AtStartSays` | src/xgen_sdk/control_policy/files.py:440-463 | Nothing of a mask comes before the first character of its match and all of it before the second. |
| `Pieces.DistributeAtStart` | src/xgen_sdk/control_policy/files.py:440-466 | The node loop rewrites exactly the nodes a match reaches, each to what its stretch becomes. |
| `Pieces.SharedIsSpliced` | src/xgen_sdk/control_policy/files.py:440-466 | The pieces afterwards join to the spliced text; pieces no span reaches stay as they are. |
| `Ooxml.OoxmlGroups` | src/xgen_sdk/control_policy/files.py:408-422 | The groups cover the document without gap or overlap; text is joined exactly inside open paragraph-like elements, and tags stand alone. |
| `Ooxml.DepthExactly` | src/xgen_sdk/control_policy/files.py:409-422 | Text counts as inside a paragraph exactly if some opening tag before it is still open: from it on there are never as many closing tags as opening ones; self-closing tags and stray closing ones do not matter. |
| `Ooxml.Rebuild` | src/xgen_sdk/control_policy/files.py:468-476 | Node texts change in place; everything between them is copied. |
| `Ooxml.MaskJoined` | src/xgen_sdk/control_policy/files.py:425-476 | With the spans the rules give for the joined text of a group, exactly the nodes a span reaches are rewritten, each mask whole in the node where its match starts; everything else is copied; without a hit the fragment is returned. |
| `Ooxml.TogetherReadsMasked` | src/xgen_sdk/control_policy/files.py:425-476 | What the nodes read as afterwards is, joined, exactly the masked joined text. |
| `Ooxml.TogetherKeepsOthers` | src/xgen_sdk/control_policy/files.py:425-476 | A node with text is rewritten exactly if not all its characters survive the rules; otherwise it keeps its bytes. |
| `Ooxml.MaskSingly` | src/xgen_sdk/control_policy/files.py:425-476 | Outside groups the hits are those of the nodes together; a node with a hit is written anew with its own masked text, one without keeps its bytes. |
| `Ooxml.ApartReadsMasked` | src/xgen_sdk/control_policy/files.py:425-476 | Every such node reads as its own masked text, and keeps its bytes if all its characters survive. |
| `Ooxml.MaskPart` | src/xgen_sdk/control_policy/files.py:496-505 | A whole part: its groups cover it, each becomes what masking its nodes together or apart makes of it, the results joined are the new part and the hits add up; without a hit the part is as it was. |
| `HtmlScan.TagScanner.FindQuote` | src/xgen_sdk/control_policy/files.py:206-212 | With or without its memory, the quote search answers as a plain forward search. |
| `HtmlScan.TagScanner.End` | src/xgen_sdk/control_policy/files.py:214-241 | The attribute loop ends the tag where the plain reading of attributes ends it. |
| `HtmlTags.TagEndIsRead` | src/xgen_sdk/control_policy/files.py:214-241 | A reader that goes through the tag one character at a time, with one state for where it is (name, between attributes, attribute, value, quotes), finds the same end: the first greater-than sign outside quotes that close, or the end of the document. |
| `HtmlScan.FindLater` | src/xgen_sdk/control_policy/files.py:206-212 | Searching from any place up to the hit finds the same hit. |
| `HtmlSegments.SegmentsCover` | src/xgen_sdk/control_policy/files.py:244-295 | The segments are consecutive and cover the document exactly, and no place where a tag could start lies in a text segment. |
| `HtmlSegments.ScanSegments` | src/xgen_sdk/control_policy/files.py:244-295 | One pass with one scanner yields those segments, and ends; what they are is said below. |
| `HtmlParts.ExtentSays` | src/xgen_sdk/control_policy/files.py:265-292 | What a construct holds: a comment from its mark to the first closing mark, a CDATA section likewise, a script or style from the end of its opening tag to the first closing tag of its name, each to the end of the document if nothing closes it; another tag holds nothing. |
| `HtmlParts.StartSays` | src/xgen_sdk/control_policy/files.py:255-261 | A tag starts at a less-than sign before a letter, a slash, an exclamation or a question mark, and at one at the very end. |
| `HtmlParts.GoesExactly` | src/xgen_sdk/control_policy/files.py:280-281 | The closing tag that is looked for is an end-tag mark, the name up to case, white space and a greater-than sign, and nothing else. |
| `HtmlParts.SegmentsProper` | src/xgen_sdk/control_policy/files.py:244-295 | Every segment of the scan is what its kind says: a raw one is all that one construct holds, a markup one lies in a construct and outside what it holds, a text one lies outside all constructs and reaches up to the next. |
| `HtmlParts.KindIs` | src/xgen_sdk/control_policy/files.py:244-295 | A character is in text exactly if it lies outside all constructs, and in a raw segment exactly if a construct holds it. |
| `HtmlParts.HeldIsRaw` | src/xgen_sdk/control_policy/files.py:265-292 | All that a comment, CDATA section, script or style holds is one raw segment. |
| `HtmlParts.OpenIsText` | src/xgen_sdk/control_policy/files.py:244-295 | A stretch between two constructs, or between one and an end of the document, is one text segment. |
| `HtmlSegments.DepartsAtTheEnd` | src/xgen_sdk/control_policy/files.py:244-270 | The scan departs from the documented reading of a less-than sign if and only if that reading ends with such a sign as text; and then only in this last character, which becomes markup. |
| `HtmlSegments.OpenAtTheEnd` | src/xgen_sdk/control_policy/files.py:244-270 | The document of two characters, a letter and a less-than sign, is one where it departs. |
| `HtmlSafe.RawSafeClosesNothing` | src/xgen_sdk/control_policy/files.py:298-300 | A mask made safe for raw text holds none of the three texts that close a script or style, a comment or a CDATA section. |
| `HtmlEscapes.RawSafeSays` | src/xgen_sdk/control_policy/files.py:298-300 | A mask made safe is the mask with a backslash inside every end-tag mark and a space inside every closing mark of a comment or CDATA section, in front of its last character. |
| `HtmlEscapes.EscapeIsCharwise` | src/xgen_sdk/control_policy/files.py:303-349 | The three replacements one after the other escape every ampersand, less-than and greater-than sign once and leave all other characters. |
| `HtmlSafe.RawSafeExactly` | src/xgen_sdk/control_policy/files.py:298-300 | Between any texts without the closing text, of a comment, a CDATA section or an end tag, it brings none about if and only if the mask is not empty, does not begin with a proper rest of the closing text and does not end with its first character. |
| `HtmlSafe.MaskClosesComment` | src/xgen_sdk/control_policy/files.py:298-300 | A mask that is a greater-than sign, put behind two dashes, closes a comment. |
| `HtmlSafe.ContentIsFree` | src/xgen_sdk/control_policy/files.py:268-277 | The raw content cut off at the first closing text holds none. |
| `HtmlSafe.SectionEnds` | src/xgen_sdk/control_policy/files.py:268-300 | A content is closed by the closing text behind it, and not before, exactly if it holds none. |
| `HtmlSafe.ScriptSafeExactly` | src/xgen_sdk/control_policy/files.py:280-300 | In a script or style it brings about no closing tag between any texts without one if and only if it is not empty, does not end with a less-than sign, and neither begins with a rest of the closing tag nor is a middle part of it. |
| `HtmlSafe.MaskClosesScript` | src/xgen_sdk/control_policy/files.py:280-300 | A mask that is the name of the element, between an end-tag mark and a greater-than sign, closes it. |
| `HtmlSafe.EscapedExactly` | src/xgen_sdk/control_policy/files.py:303-305 | A mask escaped for text opens no tag between any texts without one if and only if it is not empty and does not begin with a letter, a slash, an exclamation or a question mark. |
| `HtmlSafe.MaskOpensTag` | src/xgen_sdk/control_policy/files.py:303-349 | In a text of a less-than sign, a digit and a space a letter as mask for the digit opens a tag. |
| `HtmlClosing.ContentUnclosed` | src/xgen_sdk/control_policy/files.py:278-287 | The content of a script or style cut off at the first closing tag holds none. |
| `HtmlText.RangeIsTable` | src/xgen_sdk/control_policy/files.py:331-337 | Row search and shifts give, for every decoded index, the written place that a per-character table gives. |
| `HtmlText.CollectRows` | src/xgen_sdk/control_policy/files.py:306-327 | Decoded text and rows are built side by side, for references of any decoded length. |
| `HtmlSearch.DecodedIsResolved` | src/xgen_sdk/control_policy/files.py:306-327 | The searched text is the written one with every reference replaced by what it stands for. |
| `HtmlText.RawRange` | src/xgen_sdk/control_policy/files.py:331-337 | The binary search answers as the per-character table does. |
| `HtmlMask.MappedHides` | src/xgen_sdk/control_policy/files.py:342-352 | No written character of anything masked is left outside the replaced stretches, also when one reference is split between spans. |
| `HtmlMask.MappedOnly` | src/xgen_sdk/control_policy/files.py:342-352 | And nothing is replaced but what lies from the first written place of a span to its last. |
| `HtmlMask.MaskHtmlText` | src/xgen_sdk/control_policy/files.py:303-352 | The spans the rules give for the decoded text are replaced in the written text in order, each by its escaped mask; everything else is copied; without a hit the segment is returned. |
| `HtmlMask.NothingHidden` | src/xgen_sdk/control_policy/files.py:303-352 | A segment has no hit exactly if every character of its decoded text survives the rules, and then keeps its bytes. |
| `HtmlMask.MaskedHides` | src/xgen_sdk/control_policy/files.py:303-352 | The same for a whole masked segment. |
| `HtmlMask.CoverIsWhole` | src/xgen_sdk/control_policy/files.py:355-369 | Segments that cover a document join to it. |
| `HtmlMask.MaskHtmlDocument` | src/xgen_sdk/control_policy/files.py:355-369 | The result is the segments of the scan in order, each what becomes of it; the hits add up; without a hit the document itself. What is hidden where is said in the next two rows. |
| `HtmlSearch.HeldIsMasked` | src/xgen_sdk/control_policy/files.py:244-369 | Everything a comment, CDATA section, script or style holds is searched as a whole: in the result it is replaced by itself with exactly the spans of the rules spliced in, each by its mask made safe, so that no character that the rules hide is left. |
| `HtmlSearch.OpenIsMasked` | src/xgen_sdk/control_policy/files.py:244-369 | Every stretch of text between constructs is searched as a whole with its references resolved, and no written character of what the rules hide there is left. |
| `HtmlMask.SegmentKept` | src/xgen_sdk/control_policy/files.py:355-369 | Markup, and every segment whose searched characters all survive the rules, keep their bytes whatever happens elsewhere in the document. |
| `HtmlMask.RawStaysOpen` | src/xgen_sdk/control_policy/files.py:298-352 | A comment or CDATA section that does not close early still does not when masks that fit are written into it. |
| `HtmlMask.ScriptStaysOpen` | src/xgen_sdk/control_policy/files.py:298-352 | The content of a script or style without its closing tag, whatever other tags it holds, still has none when masks that do not blend into that tag are written into it. |
| `HtmlMask.TextStaysTagless` | src/xgen_sdk/control_policy/files.py:303-352 | Text in which no tag opens still has none when masks that do not begin like a tag are written into it. |
| `HtmlMask.TextIsTagless` | src/xgen_sdk/control_policy/files.py:244-295 | Every text segment of the scan is such a text. |
| `ApprovalEngine.PlanSteps` | src/xgen_sdk/approval/engine.py:108-139 | A planned line is numbered 1, 2, … without gaps and has everybody once; an empty line, or the first wish that has a bad number or repeats a person, is the error. |
| `ApprovalEngine.WishesKept` | src/xgen_sdk/approval/engine.py:117-139 | Whoever wished for a smaller number signs earlier; numbers below 1 count as 1, a missing one as the place of arrival; between equal ones the first to arrive signs first. |
| `ApprovalEngine.OpeningRuns` | src/xgen_sdk/approval/engine.py:232-242 | Opening a line asks the first person only. |
| `ApprovalEngine.CollectUnfilled` | src/xgen_sdk/approval/blocks.py:377-390 | The loop lists the required empty fields of the wanted steps. |
| `ApprovalEngine.NothingMissing` | src/xgen_sdk/approval/blocks.py:286-295 | Nothing is missing exactly if every required field up to that step is filled by its own rule; retired and unknown kinds never block. |
| `ApprovalEngine.StepOfSays` | src/xgen_sdk/approval/engine.py:248-257 | Whoever stands on the line more than once acts on the step that is pending; a stranger has none. |
| `ApprovalEngine.OnlyTheTurn` | src/xgen_sdk/approval/engine.py:248-296 | In a running line only the person whose turn it is may decide, and approve only with all fields up to their step filled. |
| `ApprovalEngine.RefusedBecause` | src/xgen_sdk/approval/engine.py:248-314 | Which reason a refused decision gets, each exactly: the request is over, the actor is not on the line, has signed already, is not yet asked, or a field is missing. |
| `ApprovalEngine.DecideKeepsShape` | src/xgen_sdk/approval/engine.py:260-339 | Every decision leads from a running line to a running one, one person further, or to an ended one. |
| `ApprovalEngine.CancelKeepsShape` | src/xgen_sdk/approval/engine.py:372-399 | Only the requester, and only before the first approval, withdraws; everybody is then skipped. |
| `ApprovalEngine.WithdrawalRefused` | src/xgen_sdk/approval/engine.py:372-399 | Which reason a refused withdrawal gets, each exactly. |
| `ApprovalStore.Ledger.constructor` | src/xgen_sdk/approval/store.py:351-377 | A submitted request runs, and nobody on its line is the requester. |
| `ApprovalStore.Ledger.UpdateOwnStep` | src/xgen_sdk/approval/store.py:470-480 | On a running request the conditional write wins exactly if the turn is the actor's, and then signs exactly the current step; otherwise it changes nothing. |
| `ApprovalStore.Ledger.UpdateRequest` | src/xgen_sdk/approval/store.py:491-498 | The conditional transition of the request row. |
| `ApprovalStore.DecideRuns` | src/xgen_sdk/approval/store.py:459-513 | The writes, driven by a second look at the ledger, leave exactly the rules' decision when run alone. |
| `ApprovalStore.Ledger.DecideAlone` | src/xgen_sdk/approval/store.py:439-519 | Run alone from any reachable state, `decide` leaves the status, turn and steps that the engine's rules return, or changes nothing and gives their reason. |
| `ApprovalStore.Ledger.CancelAlone` | src/xgen_sdk/approval/store.py:664-671 | Run alone, a withdrawal is the engine's. |
| `ApprovalStore.Ledger.SystemCancelAlone` | src/xgen_sdk/approval/store.py:674-720 | The system's withdrawal keeps signatures, skips the rest and leaves ended requests alone. |
| `ApprovalRuns.AdvanceJustified` | src/xgen_sdk/approval/engine.py:342-369 | What `advance` computes from the ledger stays justified however late it is carried out. |
| `ApprovalRuns.StepKeeps` | src/xgen_sdk/approval/store.py:439-720 | Every statement of every caller keeps the invariant, changes nothing final and wins a turn at most once. |
| `ApprovalRuns.RunsAreSafe` | src/xgen_sdk/approval/store.py:439-720 | In every interleaving at most one step is pending, it is the one whose turn it is, everything before it is approved, and a granted request has every step approved. |
| `ApprovalRuns.RunsLast` | src/xgen_sdk/approval/store.py:439-720 | In every interleaving approved, rejected and skipped steps and ended requests never change again, and a turn's winner stays its winner. |
| `ApprovalRuns.TurnWonOnce` | src/xgen_sdk/approval/store.py:491-498 | A turn that somebody won can never be won again. |
| `ApprovalRace.WithdrawnAfterApproval` | src/xgen_sdk/approval/store.py:664-720 | A run in which a withdrawal that was allowed before any approval cancels a request with an approved step: the rule that forbids this holds for operations run alone, not between the statements of two. |
| `ApprovalRace.WithdrawnWithApproval` | src/xgen_sdk/approval/store.py:664-720 | In every run, a request that its requester withdrew has an approved step if and only if somebody's approving signature won between the moment the withdrawal looked at the steps and the moment it skipped the open ones. |
| `ApprovalRace.CanceledByClosing` | src/xgen_sdk/approval/store.py:664-720 | In every run, whenever a request is canceled, some caller was let through, then skipped the open steps, then closed it: there is no other way. |
| `ApprovalEvidence.SubmittedFits` | src/xgen_sdk/approval/store.py:1480-1502 | After `submit` no field lies beyond the last approver of the line. |
| `ApprovalEvidence.SubmitExactly` | src/xgen_sdk/approval/store.py:351-384 | A request is made exactly of a line of others than the requester that is long enough for the form. |
| `ApprovalEvidence.SnapshotSays` | src/xgen_sdk/approval/store.py:1559-1580 | Its fields are those of the form that are not retired, in order, all empty. |
| `ApprovalEvidence.FillExactly` | src/xgen_sdk/approval/store.py:1593-1656 | On a running request a valid value may be written into a draft field by the requester until somebody has approved, into a field of the step whose turn it is by the person asked, and otherwise by nobody; nothing else changes. |
| `ApprovalEvidence.FillKeepsEvidence` | src/xgen_sdk/approval/store.py:1593-1656 | Filling a field changes nothing an approved step has seen. |
| `ApprovalEvidence.EvidenceIsFrozen` | src/xgen_sdk/approval/store.py:1593-1656 | In every run of operations, once a step has approved every required field up to it is filled and none of these fields ever changes again. |
| `ApprovalEvidence.GrantedIsComplete` | src/xgen_sdk/approval/store.py:1480-1502 | A finally approved request has no empty required field. |
| `ApprovalFills.ApprovedThenEmptied` | src/xgen_sdk/approval/store.py:1593-1656 | With statements of several callers in between: a course of events in which a value an approver has seen is overwritten and the request is granted with its required field empty. |
| `ApprovalFills.EveryWriteIsChecked` | src/xgen_sdk/approval/store.py:1593-1656 | In every course of events each write of a field was let through by an earlier look at the steps. |
| `ApprovalFills.LooksAreMayFill` | src/xgen_sdk/approval/store.py:1593-1656 | With nobody in between, the two looks let through exactly what the rules of filling let through. |
| `ApprovalFills.EvidenceIsWritten` | src/xgen_sdk/approval/store.py:1593-1656 | In every course of events a write hits a field that an approved step has already seen if and only if somebody approved between the write's look at the steps and the write. |
| `ApprovalFills.EvidenceStays` | src/xgen_sdk/approval/store.py:1593-1656 | So what an approved step has seen stays unless an approval passed such a write by. |
| `ApprovalFills.EveryApprovalLooked` | src/xgen_sdk/approval/store.py:455-480 | In every course of events each approval was preceded by its caller's look at the steps and fields. |
| `ApprovalFills.EmptyExactly` | src/xgen_sdk/approval/store.py:439-480 | In every course of events a required field that an approved step has seen is empty if and only if, since that look, the last write to it left it empty. |
| `ApprovalSettlement.ClaimsAreApart` | src/xgen_sdk/approval/store.py:570-597 | With any number of workers, successful claims on one request are more than the lease apart. |
| `ApprovalSettlement.NoneAfterSettling` | src/xgen_sdk/approval/store.py:600-630 | No claim succeeds once the request is settled. |
| `ApprovalSettlement.HooksRunOnce` | src/xgen_sdk/approval/store.py:570-630 | If every run of the hooks settles within the lease, the hooks run at most once. |
| `ConfigCache.ValueCache.KnownVersion` | src/xgen_sdk/config/redis_config.py:444-481 | Run alone, it asks exactly if nobody else is asking and the interval is over (counted from nothing after a reconnect); it answers the version on record, which is the store's if the store was asked and answered; a reconnect, a changed or a missing version empties the cache, and nothing else changes an entry; a right cache stays right. |
| `ConfigCache.ValueCache.ForgetValues` | src/xgen_sdk/config/redis_config.py:483-488 | Afterwards nothing is remembered and the next lookup asks for the version, unless somebody is doing so already. |
| `ConfigCache.ValueCache.Find` | src/xgen_sdk/config/redis_config.py:503-514 | A young enough entry of this version is the answer; any other entry under the name is dropped. |
| `ConfigCache.ValueCache.ProbeValue` | src/xgen_sdk/config/redis_config.py:490-526 | Run alone, on an unchanged version it is a hit exactly if there is an entry of that version that is young enough, and then answers it; otherwise it answers the reading past the cache and remembers it under that version; no other entry is new; a right cache stays right, and what it answers under a version reflects every write numbered up to it. |
| `ConfigCache.ReadNow` | src/xgen_sdk/config/redis_config.py:725-741 | Because writers set before they count, a reading reflects every write numbered so far. |
| `ConfigCache.CacheIsFresh` | src/xgen_sdk/config/redis_config.py:444-526 | In every run of writers and pods, an entry tagged v and an answer under version v reflect every write numbered up to v. |
| `ConfigCache.ReflectsIsFresh` | src/xgen_sdk/config/redis_config.py:490-526 | So such an answer is the value of a write no older than any numbered one to that name. |
| `ConfigCacheRecheck.BeginsExactly` | src/xgen_sdk/config/redis_config.py:458-474 | A call asks the store exactly if nobody is asking and the interval is over; no entry outlives a reconnect. |
| `ConfigCacheRecheck.DueIsFresh` | src/xgen_sdk/config/redis_config.py:423-481 | In every run: a call that finds the interval over asks the store before it is answered; and if the store says its version and no other thread of the pod is about to note an older one, the answer, from the cache or from the store, reflects every write numbered by then. |
| `ConfigCacheRecheck.OlderExactly` | src/xgen_sdk/config/redis_config.py:444-481 | In every run, a call that has just been told the version can come back with an older one if and only if another thread of the pod was told an older one and has not noted it yet. |
| `ConfigCacheRecheck.OlderIsAnswered` | src/xgen_sdk/config/redis_config.py:423-526 | A run in which a call that found the interval over asks, is told version 2, and is answered with the value from before the write of that number. |
| `ConfigCacheOwn.OwnWriteIsSeen` | src/xgen_sdk/config/redis_config.py:756-758 | Once a pod is secure (below), every later answer under the name is the value of its own write or of a later one. |
| `ConfigCacheOwn.ForgettingClears` | src/xgen_sdk/config/redis_config.py:483-488 | Forgetting after the write leaves nothing older under the name in the pod, but for answers already on their way. |
| `ConfigCacheOwn.OwnWriteExactly` | src/xgen_sdk/config/redis_config.py:483-526 | After forgetting, in every run: the pod's own numbered write can be missed later if and only if, at that moment, a thread of the pod holds an older reading of the name under a version that the pod is at or that another of its threads has just been told. |
| `ConfigCacheOwn.ThreatComesTrue` | src/xgen_sdk/config/redis_config.py:458-526 | From every such state, at any time, the pod's own threads alone can go on to answer with that older reading. |
| `ConfigCacheOwn.OwnWriteIsMissed` | src/xgen_sdk/config/redis_config.py:483-526 | A run in which a pod, its own write complete and its cache emptied after it, answers with the value from before. |

## Left out

- CfbFile.Write: which of several errors is reported first is not modelled (a name that is too long and a field that does not fit are both found); that a version 3 file keeps its sectors below 0xFFFFFFFB, its mini stream below 4 GiB and its entries below 2^32 - 1 is part of being well formed.
- CfbEntry: the model's trees have distinct nodes; the program's dictionaries would confuse one entry object that occurs twice.
- HwpReads.SplicedReads: speaks of text and masks without lone surrogates; two of these written side by side would be read as one character.
- HwpParagraph.MaskParagraph: which records belong to a paragraph and how shapes and ranges are packed into their payloads are left out; a shape list or range list is given decoded, and an incomplete last item of a payload is dropped before.
- Hwpx.MaskParagraph: the edits of several paragraphs of a section are not merged, the cached line layout is not dropped, and the parsing that finds the segments is a parameter; string leaves outside paragraphs are masked as in HwpSameLength.
- HwpRewrite.Rewrite: floating-point rounding of very long masks (see above) is not modelled.
- ConfigCacheOwn.OwnWriteExactly: speaks of a write whose INCR succeeded; without a number other pods, and later this one, may keep the older value until it is too old.
- ApprovalRuns.RunsAreSafe: liveness is not claimed: a crash, or reading the request row and its steps in two statements, can leave a request waiting.
- ApprovalEvidence.EvidenceIsFrozen: operations run one after another (`ApprovalFills` has their statements interleaved); values given together with `submit` are fills by the requester right after it; templates of evaluation sheets and the check of a value are a parameter.
- ApprovalFills.EmptyExactly: `decide` reads request, steps and fields in three statements, the model the last two in one look; a signature that wins found its step pending all the time.
- ApprovalSettlement.HooksRunOnce: the fallback when the claim column is missing is left out.
- ConfigCache.CacheIsFresh: caching is switched on (`VALUE_CACHE_MAX_AGE_S` above 0; `ProbeValue` has the other case too); no eviction or restore of the store's keys and no lost connection (a reconnect only empties the cache); the second look into the database is left out.
- Rules.ApplyRules: samples, policy identifiers and per-type counts of the audit result.
- Second lines of approval after the first (followup.py), evaluation sheets, catalogs, notifications, policies and all plain queries.
- PDF redaction, zip containers, compression, character-set detection, document properties and previews.
- Parsing of Office and Hangul XML beyond the text nodes and group tags that the regular expressions deliver.
- The settings manager apart from its value cache and the order of writes in `set_config`.
- Authentication, deployment states, agent sharing and image workflows: other parts of the SDK.
