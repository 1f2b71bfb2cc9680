# Verified model of njord's self-contained algorithms

A Dafny model of the parts of njord that compute something on their own, with proofs of
what they promise. `dafny verify dfyconfig.toml` checks the project.

- **Script signing** (`Text`, `Scanner`, `ScannerLaws`, `Verbatim`, `UnitLaws`,
  `Signature`, `CommentPlaces`). The scanner that canonicalises a script while hashing it, what it keeps and
  what it skips, the signature block that `signscript` appends, and the way the loader finds
  the block and hashes the text again. The central result,
  `Signature.SignAndLoad`, puts both programs one after the other: the loader accepts what
  the signer produced if and only if the script is `Signable`.
- **64-bit integers as two words** (`Words`, `Shifts`, `Wide`). The macros of `prlong.h` for
  compilers without a 64-bit type refine arithmetic modulo 2^64, also when the result is one
  of the operands.
- **Intrusive circular lists** (`Ring`, `RingWorld`) and the **bump arena** (`Arena`), over
  arbitrary runs of their operations.
- The **wildcard matcher** for image exceptions (`Wildcard`), the exact conditions on a pattern
  under which its answers are those of globbing (`WildcardLaws`) and under which the case of a
  path does not matter (`LetterCase`), and the list of exceptions with the paths it compares
  (`ExceptionList`).
- **Bit macros** (`Bits`), the **receive buffer** of the curl binding (`CurlBuffer`) and the
  **service wait** (`ServicePoll`).

## How the model reads the source

- A `WCHAR` is a number below 65536; a C string is the sequence of its units up to the NUL,
  and reading at its length gives NUL. `iswgraph` and `iswspace` are parameters, constrained
  by `CharClass.Valid` to what every locale guarantees.
- A hash object is the list of the data passed to `CryptHashData`. A signature scheme is a
  pair of functions; where a result needs it, the scheme verifies a signature exactly on the
  data it was made for.
- 32-bit words are numbers below 2^32 with every wrap-around written out; `long` and
  `PRUword` are 32 bits wide, as on 32-bit Windows.
- The service manager and the clock are an environment of two functions, with real time in
  milliseconds; `GetTickCount` is that time modulo 2^32.

## Where the code does less than it promises

- Signing is not invisible to the hash for every script. The scanner flushes a full buffer
  before it trims the trailing space, so a script whose canonical form leaves room for one
  unit in the last buffer and does not end in a space hashes one space more once it is signed;
  and a scan that ends in quotes hashes the block itself. `Signature.SigningPreservesHash` gives
  the exact condition, `Signature.FullBufferNotSignable` and `Signature.OpenQuoteNotSignable`
  a script for each half that fails it.
- A comment is not always skipped. The unit behind a block comment is hashed without another
  look for an opener, so of two block comments in a row the second is hashed
  (`CommentPlaces.BehindCommentHashed`). `CommentPlaces.BlockCommentExact` and
  `CommentPlaces.LineCommentExact` say in front of which texts the content of a comment is
  irrelevant.
- A string literal is not always kept. In a literal in apostrophes a double quote ends the
  quotes, and a comment opener behind it is taken for one (`Verbatim.MixedLiteralLost`).
  `Verbatim.VerbatimIff` says which texts are hashed verbatim, `Verbatim.LiteralExact` which
  literals without backslashes.
- A backslash does not escape a quote mark, it ends the quotes: behind it and any unit the scan
  goes on outside (`UnitLaws.BehindBackslash`). So a script of the literal `"a\"b"` ends in
  quotes for the scanner, and is not accepted once it is signed
  (`UnitLaws.EscapedQuoteNotSignable`).
- The stop string handed to the scanner never stops the scan of a signed file
  (`Signature.NoStopInBlock`): the block is left out of the hash because it is a comment.
- What the signer prints is read back from the scripts that do not hold the begin marker, and
  from no others (`Signature.RoundTripExact`); a file that is signed twice keeps its first
  signature (`Signature.FirstSignatureWins`).
- `MatchEntry::Match` walks both texts once, so it is not the glob for every pattern. On paths
  without wildcards in them, its FALSE is always right if and only if no wildcard follows a `?`
  and every unit behind a star that is no star is no `?` either and stands between two stars
  (`WildcardLaws.FalseIsRight`); its TRUE, on all paths but the empty one, if and only if nothing
  but stars follows the first unit it compares (`WildcardLaws.TrueIsRight`); and both if and only
  if both hold (`WildcardLaws.MatchIsGlob`; `ExceptionList.MatchIsGlobOnPaths` for whole paths).
  `WildcardLaws.SparseWithoutAny` and `WildcardLaws.OneUnitWithoutAny` say the same for patterns
  without `?`.
  `Wildcard.StarDoesNotBacktrack` and `Wildcard.TwoAnysWantAny` give matches that are missed, and
  `WildcardLaws.HeadExact` the targets that are accepted without a match.
- The comments in `exceptions.cpp` say that a file-name pattern is compared with the file name
  and a path pattern with the path from its backslash on. The code compares the first with the
  name and the backslash before it, which is the bare name exactly outside folders
  (`ExceptionList.ComparedName`), so some name in a folder is matched if and only if a wildcard
  of the pattern can take the backslash (`ExceptionList.FileNameInFolder`,
  `ExceptionList.FileNameInRealFolder`). It compares the second with what follows the first
  backslash; `ExceptionList.LeadingBackslash` says which paths a pattern with a leading backslash
  matches.
- A pattern is converted to lower case and a path is not. The case of a path makes no difference
  if and only if no unit of the pattern is the lower case of another unit, or, for paths without
  wildcards in them, if that holds as far as a path can be compared
  (`ExceptionList.CaseIgnoredByMatch`). On a given path, a pattern without stars demands lower
  case wherever it has no `?` (`LetterCase.UpperCaseNotMet`).
- `LL_ISHL` does not extend the sign when the count is zero (`Wide.ShiftLeftInt`).
- The arena macros hand out blocks that do not fit when one of their sums wraps around
  (`Arena.AllocSound`, `Arena.GrowSound`; `Arena.AllocationWraps` and `Arena.GrowthWraps` are two
  such requests). A block grown in place can carry more room than its size needs, and then it is
  not grown in place again although there is space behind it (`Arena.GrowAtFree`,
  `Arena.GrownTwice`).

## Model

| member | source | states |
|---|---|---|
| Text.FindLeast | xprep/loadjsfile.cpp:135-152 | wcsstr finds the least occurrence, and nothing only when there is none |
| Scanner.SkipComment | xprep/loadjsfile.cpp:57-69 | the two comment loops stop exactly behind the skip that the first terminator determines |
| Scanner.UpdateQuotes | xprep/loadjsfile.cpp:38-50 | the three quote tests in sequence make one step of the quote automaton |
| Scanner.Store | xprep/loadjsfile.cpp:70-84 | a unit adds itself, one space or nothing to the buffer, and what is stored is never NUL |
| Scanner.FlushIfFull | xprep/loadjsfile.cpp:86-91 | handing a full buffer to the hash and zeroing it changes nothing about the data hashed in the end |
| Scanner.FlushRest | xprep/loadjsfile.cpp:88-94 | wcslen of the buffer is the number of units stored, and the last call is trimmed of one space outside quotes |
| Scanner.HashSomeStuff | xprep/loadjsfile.cpp:28-96 | the buffered, single-pass loop makes exactly the calls that cutting the unbuffered canonical form into buffers gives; no index leaves the buffer |
| Scanner.HashedIs | xprep/loadjsfile.cpp:81-94 | the concatenated calls are the canonical form, less one trailing space exactly when it does not fill a buffer, ends in a space and is outside quotes |
| Scanner.FeedSizes | xprep/loadjsfile.cpp:81-94 | all calls but the last pass exactly 1024 units, and there are as many as needed |
| ScannerLaws.CanonAppend | xprep/loadjsfile.cpp:34-87 | scanning a text goes on where scanning its first part ended, if the comments of that part end in it and the next unit is plain |
| ScannerLaws.LeadSplit | xprep/loadjsfile.cpp:34-87 | the same in front of any unit, for a first part whose scan arrives exactly at its end |
| ScannerLaws.StopEndsScan | xprep/loadjsfile.cpp:36-37 | where the scanner comes to the stop string at the end of a text, the scan is over and nothing of the string is hashed |
| UnitLaws.QuoteMark | xprep/loadjsfile.cpp:38-47 | which quotes a quote mark opens and ends, for either mark and any quotes |
| UnitLaws.BehindBackslash | xprep/loadjsfile.cpp:48-49 | behind a backslash and any unit, a quote mark included, the scan goes on outside quotes, where no comment opens |
| UnitLaws.OtherUnit | xprep/loadjsfile.cpp:67-79 | a printable unit is hashed, whitespace as one space, any other unit not at all and without a trace |
| UnitLaws.LeadingWhitespace | xprep/loadjsfile.cpp:32-79 | a script starts outside quotes, and whitespace at its start is hashed as one space |
| UnitLaws.EscapedQuoteNotSignable | xprep/loadjsfile.cpp:38-49 | the script `"a\"b"` ends in quotes and is not signable |
| ScannerLaws.WhitespaceIrrelevant | xprep/loadjsfile.cpp:70-79 | replacing a run of whitespace by any other non-empty run leaves the scan unchanged |
| ScannerLaws.CommentIrrelevant | xprep/loadjsfile.cpp:53-69 | where the scanner comes to the opener outside quotes, replacing a comment by any other comment leaves the scan unchanged |
| ScannerLaws.BlockCommentIs | xprep/loadjsfile.cpp:60-66 | a text that opens a block comment and holds its first terminator at its end is one comment, whatever follows |
| ScannerLaws.LineCommentIs | xprep/loadjsfile.cpp:55-59 | a line comment ends in front of the first line feed |
| ScannerLaws.LineCommentHashed | xprep/loadjsfile.cpp:55-79 | the line feed behind a line comment is hashed as whitespace, and the scan goes on outside quotes |
| ScannerLaws.StringLiteral | xprep/loadjsfile.cpp:38-50 | in front of any text, a string literal without backslashes, and without double quotes if it is in apostrophes, is hashed with its whitespace squeezed and otherwise verbatim, comment openers included |
| Verbatim.VerbatimIff | xprep/loadjsfile.cpp:34-87 | any text is hashed verbatim, with its whitespace squeezed and its own quotes open at the end, if and only if no comment opens in it outside quotes |
| Verbatim.LiteralExact | xprep/loadjsfile.cpp:38-50 | a string literal without backslashes is hashed verbatim and closed if and only if it is in double quotes or holds no double quote |
| Verbatim.MixedLiteralLost | xprep/loadjsfile.cpp:38-59 | behind an apostrophe and a double quote, the rest of the line can be skipped as a comment |
| ScannerLaws.CanonInQuotes | xprep/loadjsfile.cpp:51-79 | inside quotes nothing is skipped, and the scan stays in quotes up to the next quote or backslash |
| ScannerLaws.CanonNormal | xprep/loadjsfile.cpp:70-79 | a canonical form holds only printable units and single spaces, never two spaces in a row |
| ScannerLaws.WhiteIsLastSpace | xprep/loadjsfile.cpp:70-79 | inWhitespace says that the last unit emitted is a space |
| Signature.SignatureRoundTrip | signscript/signscript.cpp:204-205 | from a script without the begin marker the loader's slice is exactly the text the signer printed, whatever follows the block; no marker straddles a join |
| Signature.RoundTripExact | xprep/loadjsfile.cpp:135-159 | every signature is read back as printed if and only if the script does not hold the begin marker |
| Signature.Locate | xprep/loadjsfile.cpp:135-159 | the pointer walk of the loader computes the text between the line end behind the begin marker and the end marker |
| Signature.SliceIs | xprep/loadjsfile.cpp:151-159 | from the first begin marker and the first line end behind it, the slice runs to the first end marker, or to the end of the text if there is none |
| Signature.NoSlice | xprep/loadjsfile.cpp:135-151 | there is no slice if and only if there is no begin marker, or no line end behind the first |
| Signature.UnendedSlice | xprep/loadjsfile.cpp:152-154 | without an end marker everything behind the line end is decoded |
| Signature.FirstSignatureWins | xprep/loadjsfile.cpp:135-159 | whatever is appended to a script with a complete block, the loader reads the first signature |
| Signature.NoStopInBlock | xprep/loadjsfile.cpp:36-37 | the stop string is no end of a signed text |
| Signature.CanonBlock | signscript/signscript.cpp:204-205 | outside quotes the block scans to at most one space |
| Signature.CanonBlockQuoted | signscript/signscript.cpp:204-205 | in quotes the whole block is hashed as text, with its whitespace squeezed, and the scan stays in quotes |
| Signature.SigningPreservesHash | xprep/loadjsfile.cpp:28-96 | appending a signature block leaves the hashed data unchanged if and only if the script is signable |
| Signature.FullBufferNotSignable | xprep/loadjsfile.cpp:81-93 | a script of 1023 letters hashes one more space once it is signed |
| Signature.OpenQuoteNotSignable | xprep/loadjsfile.cpp:38-50 | a script of one quote hashes the block as well once it is signed |
| Signature.LoaderAcceptsSignedScript | xprep/loadjsfile.cpp:151-180 | the loader recovers the signature, and it verifies if and only if the script is signable |
| Signature.SignScript | signscript/signscript.cpp:176-205 | the signer's file is the script and a block over the signature of its hashed data |
| Signature.CheckSignature | xprep/loadjsfile.cpp:135-180 | the loader verifies the slice it found against the hashed data of the whole text; without an end marker, all that is behind the line end |
| Signature.SignAndLoad | xprep/loadjsfile.cpp:98-200 | signing a script and loading the result is accepted if and only if the script is signable |
| Signature.BlockCommentNotHashed | xprep/loadjsfile.cpp:60-66 | with the stop string of both programs, where the scanner comes to the opener outside quotes, any block comment may replace any other without a change to the hash |
| Signature.LineCommentNotHashed | xprep/loadjsfile.cpp:55-59 | there, any line comment may replace any other without a change to the hash |
| CommentPlaces.BlockCommentExact | xprep/loadjsfile.cpp:51-66 | behind a given text, any block comment may replace any other in front of anything if and only if the scanner looks for a comment there outside quotes, or is in a block comment that the next slash does not end |
| CommentPlaces.LineCommentExact | xprep/loadjsfile.cpp:51-59 | behind a given text, any line comment may replace any other if and only if the scanner looks for a comment there outside quotes, or is in a line comment |
| CommentPlaces.EndingSplit | xprep/loadjsfile.cpp:34-87 | in front of a slash, the scan of any text comes down to a state, an output and a rest that is empty or opens a comment |
| CommentPlaces.BehindCommentHashed | xprep/loadjsfile.cpp:60-71 | of two block comments in a row the second is hashed |
| Signature.LayoutNotHashed | xprep/loadjsfile.cpp:70-79 | with that stop string, any other non-empty run of whitespace may replace one without a change to the hash |
| Signature.NoBeginNoStop | xprep/loadjsfile.cpp:36-37 | the stop string holds the begin marker, so a script without the marker is scanned to its end |
| Words.BitOrDisjoint | geckoembed/nspr/prlong.h:331 | or-ing into cleared low bits is addition |
| Words.AndComplement | geckoembed/nspr/plarena.h:105 | a mask and its complement split a value in two |
| Words.AndLowMask | geckoembed/nspr/prlong.h:266 | masking with 2^k - 1 keeps the remainder by 2^k |
| Words.HalveIs | geckoembed/nspr/prlong.h:361-391 | shifting right by k is floor division by 2^k, for signed values too |
| Words.DoubleIs | geckoembed/nspr/prlong.h:326-341 | shifting left by k is multiplication by 2^k |
| Wide.Cmp | geckoembed/nspr/prlong.h:227-228 | the word-wise comparison decides each of the six relations of the signed 64-bit values |
| Wide.UCmp | geckoembed/nspr/prlong.h:229-230 | the word-wise comparison decides each of the six relations of the unsigned 64-bit values |
| Wide.GeZero | geckoembed/nspr/prlong.h:225 | the top bit is clear exactly when the signed value is not negative |
| Wide.Neg | geckoembed/nspr/prlong.h:243-244 | negation modulo 2^64 |
| Wide.Add | geckoembed/nspr/prlong.h:245-250 | addition modulo 2^64 |
| Wide.Sub | geckoembed/nspr/prlong.h:252-257 | subtraction modulo 2^64 |
| Wide.CarryChain | geckoembed/nspr/prlong.h:276-281 | the first addition of partial products cannot carry, the carry of the second belongs to bit 48, and nothing else is lost |
| Wide.Mul32 | geckoembed/nspr/prlong.h:269-283 | the exact 64-bit product of any two words |
| Wide.Mul | geckoembed/nspr/prlong.h:259-264 | multiplication modulo 2^64 |
| Wide.Div | geckoembed/nspr/prlong.h:289-305 | division rounded toward zero, modulo 2^64, for every divisor but zero and for the least integer too |
| Wide.Mod | geckoembed/nspr/prlong.h:307-324 | the remainder with the sign of the dividend |
| Wide.TruncDivMod | geckoembed/nspr/prlong.h:289-324 | quotient and remainder are the one pair that recombines, with a smaller remainder of the dividend's sign |
| Wide.DivModRecombine | geckoembed/nspr/prlong.h:245-324 | the division, remainder, multiplication and addition macros in a row give the dividend back |
| Wide.ShiftLeft | geckoembed/nspr/prlong.h:326-340 | for counts 0 to 63, the value doubled that often, modulo 2^64 |
| Wide.UShiftRight | geckoembed/nspr/prlong.h:377-391 | for counts 0 to 63, the unsigned value halved that often, rounding down |
| Wide.ShiftRight | geckoembed/nspr/prlong.h:361-375 | for counts 0 to 63, the signed value halved that often, rounding down |
| Wide.ShiftLeftInt | geckoembed/nspr/prlong.h:343-359 | the sign-extended operand shifted left, if and only if the count is not zero or the operand not negative |
| Wide.ShiftLeftCompose | geckoembed/nspr/prlong.h:326-340 | two left shifts in a row are one |
| Shifts.HalveAdd | geckoembed/nspr/prlong.h:361-391 | two right shifts in a row are one |
| Wide.ShiftLeftThenRight | geckoembed/nspr/prlong.h:326-391 | a left shift undone by the unsigned right shift keeps the low 64 - b bits |
| Shifts.ShlSplit | geckoembed/nspr/prlong.h:331 | the bits a left shift pushes out of a word are its right shift by the rest of the word |
| Ring.Init | geckoembed/nspr/prclist.h:131-135 | a ring of one |
| Ring.InsertBefore | geckoembed/nspr/prclist.h:56-62 | one insertion at the place of the given node, or none for a node alone; no other ring is touched |
| Ring.InsertAfter | geckoembed/nspr/prclist.h:67-73 | one insertion behind the given node, or none for a node alone; no other ring is touched |
| Ring.RemoveLink | geckoembed/nspr/prclist.h:103-107 | one deletion; the removed node keeps its own pointers |
| Ring.RemoveAndInit | geckoembed/nspr/prclist.h:113-119 | one deletion, and the removed node is a ring of one |
| Ring.Rotate | geckoembed/nspr/prclist.h:44-51 | a ring is a ring from every one of its nodes |
| Ring.InsertedAt | geckoembed/nspr/prclist.h:56-73 | replacing one link by a way through a new node gives the ring with the node in that place |
| Ring.RemovedAt | geckoembed/nspr/prclist.h:103-107 | linking the neighbours of a node gives the ring without it |
| Ring.SameRingSameLinks | geckoembed/nspr/prclist.h:44-51 | a ring determines all pointers of its nodes |
| Ring.RemoveAndPutBack | geckoembed/nspr/prclist.h:67-107 | removing any nodes and putting them back in reverse order at their retained prev restores every pointer |
| RingWorld.Do | geckoembed/nspr/prclist.h:56-135 | every operation keeps the nodes partitioned into circular lists and does to the rings what its meaning says |
| RingWorld.Run | geckoembed/nspr/prclist.h:56-135 | every run of legal operations over any number of rings, also on lone nodes initialised again or inserted next to themselves, keeps the partition |
| RingWorld.InsertKeeps | geckoembed/nspr/prclist.h:56-73 | an insertion changes one ring, takes the node from its ring of one, and leaves all others |
| RingWorld.RemoveKeeps | geckoembed/nspr/prclist.h:113-119 | a removal changes one ring and adds a ring of one |
| RingWorld.NodesKept | geckoembed/nspr/prclist.h:56-135 | no operation loses a node, and none but its own appears |
| RingWorld.RemoveUndoesInsert | geckoembed/nspr/prclist.h:56-119 | removing a node undoes its insertion before or after any node |
| Arena.AlignLeast | geckoembed/nspr/plarena.h:105 | the aligned size is the least multiple of the alignment that holds the bytes |
| Arena.AlignSubadditive | geckoembed/nspr/plarena.h:105 | aligning a sum takes no more than aligning its parts |
| Arena.AllocSound | geckoembed/nspr/plarena.h:108-119 | a fast-path block has room and lies inside the arena if and only if no sum wraps |
| Arena.AllocGranted | geckoembed/nspr/plarena.h:108-119 | an allocation whose sums do not wrap is granted if and only if the least aligned size that holds it is left, and takes just that |
| Arena.AllocationWraps | geckoembed/nspr/plarena.h:108-119 | a request of 2^32 - 1 bytes that is granted without any room |
| Arena.AllocKeeps | geckoembed/nspr/plarena.h:108-119 | an allocation keeps base, avail and limit in order, avail aligned and the blocks apart |
| Arena.GrowSound | geckoembed/nspr/plarena.h:122-136 | a block grown in place has room for its new size inside the arena if and only if no sum wraps |
| Arena.GrowGranted | geckoembed/nspr/plarena.h:122-136 | a grow whose sums do not wrap is granted if and only if the least aligned size of the block ends at the free space and the least aligned increment is left |
| Arena.GrowTests | geckoembed/nspr/plarena.h:122-130 | the same two conditions for any address |
| Arena.GrowAtFree | geckoembed/nspr/plarena.h:122-136 | a block at the free space is granted a grow if and only if its room is the least for its size and the increment is left |
| Arena.GrownTwice | geckoembed/nspr/plarena.h:122-136 | a block that carries more room than its size needs is not grown again |
| Arena.GrowthWraps | geckoembed/nspr/plarena.h:122-136 | a growth by 2^32 - 1 bytes that is granted and moves nothing |
| Arena.GrowKeeps | geckoembed/nspr/plarena.h:122-136 | growing in place keeps the blocks apart, and the block grown is one that ended at the free space |
| Arena.RunKeeps | geckoembed/nspr/plarena.h:108-165 | so does every run of allocations, grows and releases |
| Arena.RunHistory | geckoembed/nspr/plarena.h:108-136 | a run without a release leaves the blocks it does not grow as and where they were |
| Arena.ReleaseTest | geckoembed/nspr/plarena.h:139-157 | one unsigned comparison tests both bounds of the mark |
| Arena.ReleaseGranted | geckoembed/nspr/plarena.h:153-158 | a release is done in the current arena if and only if the mark lies in the space in use, and takes avail to the least aligned address from the mark on |
| Arena.ReleaseKeeps | geckoembed/nspr/plarena.h:153-158 | a release at any address in use keeps the arena valid and exactly the blocks below the mark, and takes avail back to an aligned mark |
| Arena.NestedRun | geckoembed/nspr/plarena.h:108-165 | a run whose own marks lie behind an outer one stays behind it and keeps the blocks before it that it does not grow |
| Arena.ReleaseUndoesRun | geckoembed/nspr/plarena.h:138-165 | releasing a mark after any run with nested marks restores avail and keeps every earlier block the run did not grow, and all that end before the mark |
| Arena.Allocate | geckoembed/nspr/plarena.h:108-119 | the macro does the allocation step, or leaves the arena alone where it calls the slow path |
| Arena.GrowBlock | geckoembed/nspr/plarena.h:122-136 | for any address the macro does the grow step if both tests hold, or leaves the arena alone where it calls the slow path |
| Arena.Release | geckoembed/nspr/plarena.h:153-165 | the macro does the release step, or leaves the arena alone where it calls the slow path |
| ServicePoll.WaitForState | xprep/exec.cpp:287-315 | the loop leaves at the first turn with the state reached or the wait hint overrun in real time since the last rise of the checkpoint, within the bound; it asks for sleeps of a tenth of the hint between one and ten seconds, and reports the state of one more query |
| ServicePoll.SinceLastRise | xprep/exec.cpp:299-303 | the time counted runs from the last turn at which the checkpoint rose; one that stays or falls is no progress |
| ServicePoll.FirstEnd | xprep/exec.cpp:288-309 | the turn at which the loop is left is the first with the state expected or the hint overrun since the last rise |
| ServicePoll.OneTurn | xprep/exec.cpp:288-309 | each turn either makes progress or uses up a second of the wait hint, and its tick difference does not wrap |
| ServicePoll.TickDifference | xprep/exec.cpp:306 | the unsigned difference of two tick counts is the time between them, below 2^32 ms |
| ServicePoll.TurnBoundIs | xprep/exec.cpp:288-309 | the bound is (rises + 1) * (hint / 1000 + 1) for the argument rises + 1 |
| Bits.FloorLog2 | geckoembed/nspr/prbit.h:94-108 | the k with 2^k <= n < 2^(k+1) |
| Bits.AndPredecessor | geckoembed/nspr/prbit.h:74 | n & (n - 1) is zero exactly for powers of two |
| Bits.CeilingLog2 | geckoembed/nspr/prbit.h:70-86 | the least k with n <= 2^k, for every n |
| Bits.TestBit | geckoembed/nspr/prbit.h:49-50 | non-zero exactly for the members of the set the bitmap stands for |
| Bits.SetBit | geckoembed/nspr/prbit.h:51-52 | adds one number to the set |
| Bits.ClearBit | geckoembed/nspr/prbit.h:53-54 | takes one number from the set |
| Bits.OneBit | geckoembed/nspr/prbit.h:49-54 | changing one bit of one word changes the set by that number only |
| Bits.MembersAre | geckoembed/nspr/prbit.h:49-50 | number b is bit b mod 32 of word b div 32 |
| Bits.Run | geckoembed/nspr/prbit.h:49-54 | any sequence of sets and clears edits the set the same way |
| Bits.RotatesUndo | geckoembed/nspr/prbit.h:131-132 | left and right rotates by 1 to 31 undo each other |
| Bits.RotatesMove | geckoembed/nspr/prbit.h:131-132 | which bits go where in a left and in a right rotate |
| Bits.RotateRightIsLeft | geckoembed/nspr/prbit.h:131-132 | a right rotate is a left rotate by the rest of the word |
| Wildcard.WalkSound | js_wimg/exceptions.cpp:60-87 | TRUE means the compared text is glob-matched by the part of the pattern walked, all of it at a trailing star |
| Wildcard.TrueMeansGlob | js_wimg/exceptions.cpp:60-87 | unless both texts hold a `?`, TRUE means a match of the whole pattern if and only if Match returned at a trailing star or had only stars left |
| WildcardLaws.FalseIsRight | js_wimg/exceptions.cpp:60-87 | FALSE is the glob's answer on every compared part without wildcards if and only if the pattern is sparse, and then on every text |
| WildcardLaws.TrueIsRight | js_wimg/exceptions.cpp:60-87 | TRUE is the glob's answer on every non-empty compared part without wildcards if and only if only stars follow the first unit compared |
| WildcardLaws.MatchIsGlob | js_wimg/exceptions.cpp:60-87 | the walk is the glob on every non-empty text without wildcards if and only if the pattern meets both conditions |
| WildcardLaws.SparseWithoutAny | js_wimg/exceptions.cpp:62-69 | without `?`, sparse means no star, or a star at the end and no two units in a row behind the first star |
| WildcardLaws.OneUnitWithoutAny | js_wimg/exceptions.cpp:60-87 | without `?`, the condition for TRUE is that at most one unit is not a star |
| WildcardLaws.HeadExact | js_wimg/exceptions.cpp:70-87 | for a sparse pattern with stars at its end only, TRUE if and only if the glob matches or the text matches a proper beginning that does not end in a `?` |
| Wildcard.LiteralExact | js_wimg/exceptions.cpp:60-87 | in particular, for a pattern with no wildcard but stars at its end, TRUE if and only if the glob matches or the text is a proper beginning of the literal |
| Wildcard.StarDoesNotBacktrack | js_wimg/exceptions.cpp:62-69 | a match after a star that the walk misses |
| Wildcard.TwoAnysWantAny | js_wimg/exceptions.cpp:70-76 | two `?` match any two units, and the walk finds it if and only if the second is a `?` |
| ExceptionList.ComparedName | js_wimg/exceptions.cpp:40-50 | the compared part is the file name behind a backslash in a folder, and the bare name if and only if the path is in no folder |
| ExceptionList.ComparedPath | js_wimg/exceptions.cpp:51-59 | a path pattern is compared with what follows the first backslash, with that backslash if nothing follows, and with the whole path if it has none |
| ExceptionList.FileNameInFolder | js_wimg/exceptions.cpp:40-50 | a file-name pattern matches in some folder if and only if it starts with a star, or with a `?` and something behind it |
| ExceptionList.FileNameInRealFolder | js_wimg/exceptions.cpp:40-50 | the same for paths without wildcards: stars with no `?` behind them, or one `?` with no wildcard behind it |
| ExceptionList.LeadingBackslash | js_wimg/exceptions.cpp:51-59 | a pattern with a leading backslash matches a path if and only if its first backslash is its end or the next unit is a backslash and the rests match |
| ExceptionList.MatchIsGlobOnPaths | js_wimg/exceptions.cpp:37-88 | on whole paths without wildcards: FALSE is right if and only if the pattern is sparse, TRUE on all but the empty path if and only if only stars follow the first unit compared, and Match is the glob of the compared part if and only if both hold |
| ExceptionList.CaseIgnoredByMatch | js_wimg/exceptions.cpp:28-29 | the case of a path never matters if and only if no unit of the pattern is the lower case of another unit; on paths without wildcards, if and only if that holds as far as a path can be compared |
| LetterCase.CaseIgnored | js_wimg/exceptions.cpp:60-87 | the same for the part compared, on all texts |
| LetterCase.CaseIgnoredOnPaths | js_wimg/exceptions.cpp:60-87 | the same for the part compared, on texts without wildcards |
| LetterCase.UpperCaseNotMet | js_wimg/exceptions.cpp:28-29 | a pattern without stars matches a given compared part if and only if it matches it in lower case and no upper-case unit stands against a literal |
| ExceptionList.MatchEntry.constructor | js_wimg/exceptions.cpp:20-30 | the entry is valid: it is a file-name pattern exactly when the pattern it compares has no backslash, and that pattern is the given one in lower case |
| ExceptionList.MatchEntry.Start | js_wimg/exceptions.cpp:39-59 | the pointer loops find the part of the path that is compared |
| ExceptionList.MatchEntry.Compare | js_wimg/exceptions.cpp:60-87 | the loop computes the walk, takes at most one turn per pattern unit and one more, and passes neither terminator |
| ExceptionList.MatchEntry.Match | js_wimg/exceptions.cpp:37-88 | the verdict of the walk on the compared part |
| ExceptionList.SetExceptions | js_wimg/exceptions.cpp:137-146 | the list built, last pattern first, excepts exactly the paths that some lower-cased pattern matches |
| ExceptionList.ExceptionCallback | js_wimg/exceptions.cpp:93-105 | a file is processed if and only if no entry of the list matches it; other messages change nothing |
| CurlBuffer.PassedBuffer.Write | js_curl/js_curl.cpp:220-236 | a chunk is appended to the contents, or refused with nothing stored when growing fails; a refill adds 4096 bytes, or 2048 more than a larger chunk, and there is always a byte to spare |
| CurlBuffer.Perform | js_curl/js_curl.cpp:279-315 | without a refused reallocation the result is the concatenation of all chunks, in a buffer of bounded slack |

## Left out

- Encoding: detection and conversion between UTF-8 and UTF-16 in the loader and the signer; both start here from the units.
- Comments that never end: the scanner reads past the end of the text; here `Canon` reports them and the methods require that there are none.
- Decoding the signature text, registry, certificates and message boxes, which are calls into Windows; where the loader goes on with a null pointer the model returns `None`.
- Wide.UDivMod: the routine behind `LL_UDIVMOD` is not part of the repository; the body here has the meaning of the macro's native branch.
- Conversions between 64-bit pairs and floating point, the native-integer branch of `prlong.h`, and shifts by 64, for which the macros do not compute a shift.
- Arena.Allocate: the slow path `PL_ArenaAllocate` is not part of this model, nor are `PL_ArenaGrow` and `PL_ArenaRelease`; the contents of the memory are not modelled either.
- RingWorld.Run: `PR_REMOVE_LINK` leaves a node whose pointers still name its old ring, so runs use the variant that initialises it; the plain one is covered by the remove-and-put-back result.
- ServicePoll.WaitForState: requires that, while the loop runs, the time since the last progress stays below 2^32 ms; beyond that the tick counter comes round unseen.
- CurlBuffer.Perform: requires that the sizes stay below 2^32; how often curl calls back, and with what, is the list of chunks.
- ExceptionList.MatchEntry.constructor: the lower-casing of the locale is a parameter, of which `Lowers` says what is relied on.
- ExceptionList.SetExceptions: the table that keeps one list per image, and the release of its old list, are not modelled.
- `WildcardLaws` decides patterns; for a pattern that fails both conditions, which paths are answered wrongly is not described further.
- Window procedures, script bindings, browser and directory glue: they only pass values on to other libraries.
