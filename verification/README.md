# Section lists, multipart uploads and exception frames, verified

This project models, in Dafny 4.11, the three places of the repository that hold algorithms rather
than declarations, and proves what they are for. `dafny verify dfyconfig.toml` checks all of it.

**The section list of BFD** (`mingw/include/bfd.h`). Five macros link sections into and out of an
intrusive doubly linked list, and a sixth tests membership in constant time by looking at pointers
that removal leaves stale. `SectionList` models the macros as methods that assign `next`, `prev`,
`sections` and `section_last` in place. Its `Valid()` says that every pointer in the pool of sections
is the one called for by a value, the `Chain`: the members in order, and the links still carried by
each section that is not a member. Two heaps with the same chain are therefore the same heap, so the
equations between chains in `SectionChain`, `SectionRestore` and `SectionOrder` are equations between
heaps. The membership test is exact because of an invariant about stale links (`NoStalePair`): no
section outside the list points at one that points back at it. `SectionRestore` and `SectionOrder`
settle in which orders removed sections can be put back from their own stale links. An order works if
and only if each section comes back after the one it points at, and of two that point at the same one
the later removed comes back first. So reverse order always works, and the order of removal exactly
when no two of the sections were neighbours, and then every other order works as well.

**The `align_power` macro** (same file). `AlignPower` writes out the 32-bit C operators and proves
that the macro is rounding up modulo 2^32, exactly when it wraps, and that a sequence of alignments
is one alignment to the largest.

**The uploader** (`bin/googlecode_upload.py`). `Multipart` has the grammar of section 5.1.1 of
RFC 2046 as a printer, and a decoder written from the same section, for any boundary; it proves that
decoding undoes printing exactly for the parts in which no line of a content starts with the boundary
line and no name has a quote or a line break. `Uploader` proves that the lines which the script
collects and joins are that grammar's body. `UploadSession` models one run of the script, from the
command line through the credential retries to the exit code, against an arbitrary sequence of server
replies and typed lines.

**Exception frames** (`mingw/include/excpt.h`). `SehMachine` models the instructions of `__try1` and
`__except1`; `SehChain` proves, for every run that keeps off the registrations and removes one only
with the stack back at it, that each `__except1` has its `__try1` and undoes it, and that walking the
chain from fs:0 always lists the installed handlers. It also says when a removal from anywhere else on
the stack smashes the chain. `SehCpu` carries out the instructions one by one on a thread's registers
and memory, with the installed registrations as its invariant.

`hide` statements in the proofs only keep definitions that a step does not need away from the solver.

Points where the model takes a decision:

- A Python 2 `str` is a Dafny `string`, one character per byte. No proof uses that characters are
  below 256, so the results hold for all byte strings.
- `upload_find_auth` called with `tries <= 0` makes no upload and then fails on unbound variables;
  the model returns `None`.
- The login is cut at the first `@gmail.com`, not at the last; `LoginIsUserPart` says when that is
  what the comment in the source promises.
- The decoder matches header names as the encoder spells them, and takes a backslash inside a quoted
  name literally, since the encoder escapes nothing.
- A name may hold a single CR or LF: only the pair ends a header line. The condition proved is the
  exact one for the decoder of the model.
- The macro's comment asks for the stack to be exactly as it was after `__try1`. The chain needs less:
  `SehChain.ExceptKeepsChainExactly` says that the word on top of the stack decides.
- Intervening code on the stack may store anywhere but into a registration, which is more than keeping
  below the live one; `ExceptRestores` then says that memory from the old stack pointer upwards is
  unchanged except where that code itself stored.

## Model

| member | source | states |
|---|---|---|
| SectionList.Bfd.constructor | mingw/include/bfd.h:4685-4689 | an empty list over fresh sections satisfies the invariant |
| SectionList.Bfd.Remove | mingw/include/bfd.h:1560-1575 | takes the section out of the sequence and reroutes only its neighbours; its own links stay as they were and every other pointer of the pool is unchanged |
| SectionList.Bfd.Append | mingw/include/bfd.h:1576-1594 | puts the section last, whatever stale links it had; only it and the old last section change |
| SectionList.Bfd.Prepend | mingw/include/bfd.h:1595-1613 | puts the section first, whatever stale links it had; only it and the old first section change |
| SectionList.Bfd.InsertAfter | mingw/include/bfd.h:1614-1628 | puts the section directly behind the anchor; only it and its new neighbours change |
| SectionList.Bfd.InsertBefore | mingw/include/bfd.h:1629-1643 | puts the section directly before the anchor; only it and its new neighbours change |
| SectionList.Bfd.RemovedFromList | mingw/include/bfd.h:1644-1645 | the test on raw, possibly stale pointers is true of exactly the sections that are not in the list |
| SectionList.Bfd.Perform | mingw/include/bfd.h:1557-1645 | any run of macro uses on the heap ends in the state that the run on chains predicts, with the invariant kept throughout; what that run is, RunIsTrace says |
| SectionList.Bfd.RemoveEach | mingw/include/bfd.h:1560-1575 | taking sections out one after the other by the macro ends in the chain that the run of removals predicts |
| SectionList.Bfd.PutBackLastFirst | mingw/include/bfd.h:1595-1628 | putting sections back, the last one first, each behind the section that its stale prev names, ends in the chain that restoring predicts |
| SectionList.Bfd.RemoveAndRestore | mingw/include/bfd.h:1560-1628 | removing any sections and putting them back in reverse order, each after its own stale prev, leaves every next, prev, sections and section_last as it was |
| SectionList.Bfd.Shape | mingw/include/bfd.h:1177-1181 | members are distinct, next and prev are inverse along the list, NULL at both ends, and sections and section_last are both NULL or both the true ends |
| SectionList.Bfd.WalksVisitTheMembers | mingw/include/bfd.h:1177-1181 | walking next from sections and prev from section_last ends, meets each member once, and the two walks are reverses of each other |
| SectionChain.StepKeeps | mingw/include/bfd.h:1560-1643 | each operation keeps the invariant, stale links included, and the pool |
| SectionChain.StepMeaning | mingw/include/bfd.h:1560-1643 | where each operation is allowed, and the list it leaves, written out by the positions of the sections named |
| SectionChain.RunIsTrace | mingw/include/bfd.h:1560-1643 | a run ends in d if and only if a sequence of chains, one more than the operations and each one step from the one before, leads to d |
| SectionChain.RunAppend | mingw/include/bfd.h:1560-1643 | a run of two pieces of code is a run of the second from where the first one ends |
| SectionChain.TestIsExact | mingw/include/bfd.h:1644-1645 | in every well-formed chain the test is true of exactly the non-members |
| SectionChain.TestIsExactInEveryRun | mingw/include/bfd.h:1560-1645 | after every run from an empty list over fresh sections, and for every section of the pool, the test is exact although removed sections keep stale links |
| SectionChain.RemovedIsUnlinked | mingw/include/bfd.h:1560-1575 | removal reroutes one link in each neighbour and changes no other link of any section, in the list or not |
| SectionChain.InsertedIsLinkedIn | mingw/include/bfd.h:1576-1643 | insertion reroutes one link in each neighbour, sets both links of the section, and changes no other |
| SectionChain.InsertBeforeIsInsertAfterPrevious | mingw/include/bfd.h:1614-1643 | insert_before(B, S) and insert_after(B's prev, S) give the same heap when that prev is not NULL |
| SectionChain.AppendIsInsertAfterLast | mingw/include/bfd.h:1576-1628 | on a non-empty list append is insert_after the last section |
| SectionChain.PrependIsInsertBeforeFirst | mingw/include/bfd.h:1595-1643 | on a non-empty list prepend is insert_before the first section |
| SectionChain.RemoveUndoesInsert | mingw/include/bfd.h:1560-1643 | removing a section just inserted, by any of the four insertions, restores all pointers but its own |
| SectionRestore.RestoreUndoesRemove | mingw/include/bfd.h:1560-1628 | the stale prev of a removed section is enough to put it back exactly |
| SectionRestore.RestoreLastFirstUndoesRemoveAll | mingw/include/bfd.h:1560-1628 | removing any sequence of sections and restoring it in reverse gives the chain back |
| SectionRestore.RestoreLastFirstIsReverse | mingw/include/bfd.h:1560-1628 | restoring the last section first is restoring in the reversed order |
| SectionRestore.RemoveAllIsRun | mingw/include/bfd.h:1560-1575 | removing several sections is the run of their removals |
| SectionOrder.RestoreExactlyWhenOrdered | mingw/include/bfd.h:1560-1628 | restoring removed sections in any order gives the chain back if and only if each comes after the one its stale prev names, where that one is out too, and of two with the same stale prev the later removed comes first |
| SectionOrder.RestoreInAnyOrder | mingw/include/bfd.h:1560-1628 | if no two of the sections removed were neighbours, restoring them in any order gives the chain back |
| SectionOrder.RestoreInOrderExactlyWhenApart | mingw/include/bfd.h:1560-1628 | restoring in the order of removal gives the chain back if and only if no two of the sections were neighbours |
| SectionOrder.NeighboursChangePlaces | mingw/include/bfd.h:1560-1628 | a failing input: two neighbours removed and restored in the same order change places |
| AlignPower.AlignPowerMeaning | mingw/include/bfd.h:343-344 | the macro is the least multiple of 2^a not below the address, modulo 2^32 |
| AlignPower.AlignPowerFormula | mingw/include/bfd.h:343-344 | the macro is (addr + 2^a - 1) / 2^a * 2^a in unbounded integers, then modulo 2^32 |
| AlignPower.MultipleMeansNoRemainder | mingw/include/bfd.h:343-344 | the notion of multiple used there is the one of the remainder operator |
| AlignPower.WrapsExactlyAboveLastMultiple | mingw/include/bfd.h:343-344 | the result is 0 only at 0 and above 2^32 - 2^a, and falls below the address exactly in the latter case |
| AlignPower.AlignPowerComposes | mingw/include/bfd.h:343-344 | aligning to two powers in turn, in either order and wrapping or not, is aligning once to the larger |
| AlignPower.AlignPowerIdempotent | mingw/include/bfd.h:343-344 | an aligned address stays where it is |
| AlignPower.AlignPowerMonotone | mingw/include/bfd.h:343-344 | the order of two addresses survives alignment exactly when the larger does not wrap or the smaller goes to 0 too |
| AlignPower.WrapReversesOrder | mingw/include/bfd.h:343-344 | a failing input: to a multiple of 16, address 1 goes up to 16 and the last address wraps to 0 |
| AlignPower.AlignAllIsLargest | mingw/include/bfd.h:343-344 | any non-empty sequence of alignments, in any order, equals one alignment to the largest of them |
| Text.FindAfter | bin/googlecode_upload.py:119-120 | behind a value without it, the first occurrence of a borderless delimiter is exactly at the end of the value |
| Text.JoinUndoesSplit | bin/googlecode_upload.py:229-230 | joining what split returned gives the string that was split |
| Multipart.DelimiterIsBorderless | bin/googlecode_upload.py:119-120 | CRLF, two dashes and a boundary without CR cannot overlap themselves |
| Multipart.BodySplitsAtParts | bin/googlecode_upload.py:125-152 | the delimiter occurs in the body only where the encoder put it |
| Multipart.DecodedIsEncodable | bin/googlecode_upload.py:125-152 | whatever the decoder returns, for any body at all, has no line that starts with the boundary line in a content and no quote or line break in a name |
| Multipart.EncodableMeaning | bin/googlecode_upload.py:125-152 | that condition written out: no quote and no CR LF in a name, and no line of the content, as split at CR LF, starts with two dashes and the boundary |
| Multipart.DecodeUndoesPrintExactly | bin/googlecode_upload.py:125-152 | for any boundary without CR and any parts, decoding the body returns the parts if and only if they meet that condition |
| Multipart.PrintIsInjective | bin/googlecode_upload.py:125-152 | different transmissible parts have different bodies |
| Uploader.BoundaryIsLegal | bin/googlecode_upload.py:119 | the boundary satisfies the grammar of section 5.1.1 of RFC 2046 |
| Uploader.EncodeUploadRequest | bin/googlecode_upload.py:110-152 | the lines collected in the loop and joined by CRLF are the multipart body of the grammar, for the fields in order and then the file; the content type is multipart/form-data with the boundary, written out |
| Uploader.FieldOnTheWire | bin/googlecode_upload.py:125-131 | the bytes of a field in the body, written out, before those of the rest |
| Uploader.FileOnTheWire | bin/googlecode_upload.py:139-152 | the bytes of the file part and of the closing line, written out |
| Uploader.JoinedLinesAreBody | bin/googlecode_upload.py:122-152 | lines joined by CRLF, with the empty last line, print the grammar's body |
| Uploader.FormReadsBackExactly | bin/googlecode_upload.py:110-152 | the same fields in order, file name and file bytes are read back if and only if no value or file line starts with the boundary line and no name has a quote or a line break |
| Uploader.BoundaryFileIsLost | bin/googlecode_upload.py:110-152 | a failing input: a file that is two dashes and the boundary is not read back |
| Uploader.BoundaryLines | bin/googlecode_upload.py:125-150 | n fields make n + 2 boundary lines: n + 1 that open a part and a closing one, which is last |
| Uploader.EncodingIsInjective | bin/googlecode_upload.py:110-152 | two transmissible forms with the same body have the same fields and the same file |
| UploadSession.StripMeaning | bin/googlecode_upload.py:85 | stripping takes white space off both ends and leaves none there |
| UploadSession.StripPadded | bin/googlecode_upload.py:85 | a word between any of the six white space characters is stripped to the word, and right-stripped to it when they follow |
| UploadSession.LoginIsUserPart | bin/googlecode_upload.py:78-81 | user@gmail.com logs in as user if and only if user does not hold @gmail.com itself |
| UploadSession.LoginCutShort | bin/googlecode_upload.py:78-81 | a failing input: a@gmail.com@gmail.com logs in as a |
| UploadSession.LoginIsNoAddress | bin/googlecode_upload.py:78-81 | the login never ends in @gmail.com, written out on its last ten characters |
| UploadSession.Upload | bin/googlecode_upload.py:59-107 | the request goes to the host of the project and carries the stripped login and the password with a colon between them, and the form of the job; status and reason are the server's, and a URL is returned only for status 201 |
| UploadSession.CredentialsReadBackExactly | bin/googlecode_upload.py:91 | split at the first colon, as section 2 of RFC 2617 has it, the credentials give back the login and the password if and only if the login holds no colon |
| UploadSession.RequestReadsBackExactly | bin/googlecode_upload.py:83-101 | whatever the credentials, a server that takes the boundary from a multipart/form-data content type reads the summary, the stripped labels and the file off the request if and only if they are transmissible |
| UploadSession.UploadFindAuth | bin/googlecode_upload.py:155-198 | between 1 and tries uploads; all but the last rejected with 401 or 403; fewer than tries only if the last was not; the caller's credentials only in the first, and after that the next line typed at each prompt; status, reason and URL are those of the last reply |
| UploadSession.TypedAgain | bin/googlecode_upload.py:170-193 | from the second upload on, user name and password do not depend on the values given, only on whether they were given |
| UploadSession.RunUploader | bin/googlecode_upload.py:201-244 | exit code 2 exactly without summary, project or exactly one file, and then nothing is sent; otherwise one to three requests to the project's host, each the same job under the next credentials and readable as that job exactly if it is transmissible; all replies but the last 401 or 403, fewer than three requests only if the last was neither, and exit code 0 exactly if it was 201 with a location |
| UploadSession.LabelsOnTheWire | bin/googlecode_upload.py:229-232 | the decoded request has the summary, one stripped label per comma-separated piece in order, and the file; the unstripped pieces joined by commas are the option |
| UploadSession.SummaryAndFileOnly | bin/googlecode_upload.py:229-232 | without the labels option the decoded request is the summary and the file and nothing else, if and only if these are transmissible |
| SehMachine.InstalledLayout | mingw/include/excpt.h:62-79 | the pair pushed has the link at offset 0 and the handler at offset 4, fs:0 points at it, and no other word changes, for every esp including those that wrap |
| SehMachine.UninstallUndoesInstall | mingw/include/excpt.h:78-94 | back to back, the two primitives restore esp, fs:0 and all memory but the two words below the stack |
| SehChain.RunKeeps | mingw/include/excpt.h:71-94 | every run keeps the chain linked, the frames stacked and esp below the live one |
| SehChain.StepMeaning | mingw/include/excpt.h:78-94 | each step in plain arithmetic: when it is allowed, and every register, the memory and the registrations after it |
| SehChain.RunAppend | mingw/include/excpt.h:71-94 | a run of two pieces of code is a run of the second from where the first one ends |
| SehChain.ExceptRunsExactly | mingw/include/excpt.h:81-94 | after bracketed code the removal can be carried out if and only if esp is back where the installation left it |
| SehChain.BracketedKeepsHandlers | mingw/include/excpt.h:71-94 | after any bracketed code the same registrations are installed and fs:0 is as before |
| SehChain.ExceptRestores | mingw/include/excpt.h:81-94 | each removal returns fs:0 and esp to what they were before the matching installation, with memory from there upwards changed only by the stores of the code in between |
| SehChain.EveryExceptRestores | mingw/include/excpt.h:71-94 | every removal in a run that starts with the primitives unused has a matching installation with bracketed code in between, and returns fs:0, esp and the installed handlers to what they were before it, with memory from there upwards changed only by the stores of that code |
| SehChain.ExceptKeepsChainExactly | mingw/include/excpt.h:89-94 | wherever esp points, the removal leaves the other registrations linked if and only if the word there is the link of the newest one |
| SehChain.LeftoverPush | mingw/include/excpt.h:89-94 | with one pushed word left over, the removal smashes the chain unless that word happens to be the old fs:0 |
| SehChain.SmashedChain | mingw/include/excpt.h:89-94 | a failing input: after an installation and a push of 5, the removal leaves 5 at fs:0 and no chain |
| SehChain.WalkListsHandlers | mingw/include/excpt.h:62-94 | in every reachable state the walk from fs:0 ends and lists the handlers not yet removed, newest first and at rising addresses, and then the original chain |
| SehCpu.Cpu.Try1 | mingw/include/excpt.h:78-79 | the two pushes and the move put a new registration before the chain, linked to the old fs:0, with the whole chain in order again |
| SehCpu.Cpu.Except1 | mingw/include/excpt.h:92-94 | where the stack is as the installation left it, the two moves and the addition take the newest registration off the chain, fs:0 points at the next one, and memory is unchanged |
| SehCpu.Cpu.Perform | mingw/include/excpt.h:71-94 | any code that keeps the rules, carried out instruction by instruction, ends in the thread that the run predicts, with the chain in order throughout; a release of n words raises esp by 4n, and a store leaves its value at its address |
| SehCpu.Cpu.WalkFromFs0 | mingw/include/excpt.h:62-94 | a walk from fs:0 through memory meets the live registrations and then the original chain |

## Left out

- `section_count` and `target_index`, which the macros say they do not maintain.
- Two BFDs that share sections: the membership test is not meant to tell their lists apart.
- BFD functions declared without a body, `bfd_section_list_clear` among them: their behaviour is not in the header.
- The HTTPS connection, the base64 coding of the credentials, the option parser, the printed messages and the failure to open a file: the server is a sequence of replies, the prompts and the file are parameters.
- The request path and the User-Agent header, which are constants.
- `os.path.basename`: a library function; the file's base name is a parameter.
- Case-insensitive and folded header lines and other header parameters, which a general MIME reader accepts and the encoder never writes.
- SehChain.ExceptRestores: unaligned stores and unaligned stack pointers are not modelled, because memory is a map of aligned words.
- Stack overflow: a run in which a push would wrap below address 0 is not a run of the model in `SehChain`; the primitives themselves are modelled with the wrap.
- The dispatch of exceptions to handlers, which the operating system does.
- `complex.h`, `ctype.h` and the constants, structures and message macros of the Win32 headers: only easy members would come of them.
