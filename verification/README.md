# Verification of easy-webdav's core

A Dafny model of the parts of easy-webdav whose correctness is not visible in one place,
with proofs. `dafny verify dfyconfig.toml` checks everything.

**Locks.** The in-memory lock system keeps a name tree with reference counts, a token
table and an expiry heap. `MemLS.dfy` models it with its classes, fields and loops, and
proves that every operation refines the same operation on a plain map of locks
(`LockSpec.dfy`); in particular that it may answer questions about all descendants by
looking only at ancestors. `LockHandler.dfy` adds what a request does around it,
`LockProtocol.dfy` all interleavings of requests, and `LockServer.dfy` runs them on the
classes: every call is a step of the protocol, and a claim can be released whatever was done
since. `LockRequests.dfy` serves any calls in any order, and takes a write request through
confirmation and release with other requests between its steps. `ScopedLocks.dfy` is the
users' roots.
RFC 4918, sections 6, 7, 9.10 and 9.11.

**The If header.** `IfHeaders.dfy` has the lexer and parser as loops over the remaining
string, a grammar that does not mention them, and the printer that they invert.
RFC 4918, section 10.4.

**XML.** `XmlPrinter.dfy` and `XmlDecoder.dfy` model the encoder's two inverse maps with
their undo log and the decoder's stack of linked cells with its free list; `XmlSpec.dfy`
is the reader both are measured against, and `XmlRoundTrip.dfy` puts them together.
`XmlText.dfy` is escaping and reading of character data. Namespaces in XML 1.0, section 6;
XML 1.0, sections 2.2, 2.4, 2.7 and 2.11.

**Files.** `MemFS.dfy` models the in-memory file system's nodes and refines it to a map
from paths to entries (`FileTree.dfy`); `CopyMove.dfy` is COPY, MOVE and the walk on it.
RFC 4918, sections 9.8 and 9.9.

**Usage and uploads.** `TreeSize.dfy` counts bytes; `Quota.dfy` is the restricted file
system with its ledger and the requests that use it; `Uploads.dfy` is the session manager;
`UploadRun.dfy` is the browser's three-worker client against it, and `UploadOutcome.dfy` says
which states can still end well and when an upload fails with no fault.

## What was found

* Two kinds of names are read back in another namespace: an element called `xmlns` in a
  default namespace, and a name spelled with a declared prefix `xml`. `XmlSpec.TranslateSpelled`
  has the exact condition for a name, `XmlPrinter.Encode` and `XmlRoundTrip.RoundTrip` for a
  stream; `XmlPrinter.EncodeXmlnsElement` and `XmlPrinter.EncodeDeclaredXml` write one of each
  kind, and both are lost. A prefix `xmlns` is never in force
  (`XmlPrinter.Printer.XmlnsIsNoPrefix`). The condition also names a prefix spelled like the
  XML namespace; that is an artefact of tags being structured values, for the lexer refuses
  such an attribute name (`internal/webdav/xnet/internal/xml/xml.go:810-815` and `1190-1195`).
  Streams that declare neither prefix and name no such element always survive
  (`XmlPrinter.AlwaysReadBack`).
* A lock name is formed by joining before cleaning, so `/../bob` names another user's root
  (`ScopedLocks.UsersMayBlock`; `ScopedLocks.OthersNeverBlock` says exactly which paths stay
  clear of everybody else). In this server such a path does not come from the request line,
  which Go's `ServeMux` cleans, nor from a Destination header, where `destinationInside`
  (`internal/webdav/handler.go:72-92`) refuses it. It comes from a resource tag of an If
  header (`internal/webdav/xnet/webdav.go:149-165`), where no file goes with it. Where a file
  is opened by the same text, it stays inside (`Quota.FileAndLockAgree`).
* MOVE removes the destination before it tries the rename. When the rename then fails, the
  destination is gone (`CopyMove.FailedMove` says exactly when): a missing source is enough
  (`CopyMove.LostDestination`).
* `moveFiles` onto the same resource under another spelling moves nothing, and yet reports
  success in two cases (`CopyMove.MoveOntoItself`): a resource that is there is removed with
  204, and one that is not there is answered with 201. Without an If header the request does
  not get that far: the two temporary locks collide and the answer is 423
  (`LockHandler.ConfirmTemporarily`). Both statuses are those of the in-memory file system; on
  the restricted one the resource is removed as well, but the answer is 403 (`Quota.MoveFiles`
  reports success only for different names).
* COPY of a collection into a missing parent answers 403, of a file 409
  (`CopyMove.MissingParent`); RFC 4918, section 9.8.5, asks for 409 in both cases.
* COPY of a collection, with its members, over a collection that contains it loses them all
  on the in-memory file system: the destination is removed first, and the source with it. An
  empty collection is left, and the answer is 404 (`CopyMove.CopyOntoAncestor`).
* COPY of a collection, with its members, to a place inside itself. On the in-memory file
  system, which lists a directory when it is opened, it works for a new member; over a member
  that is there, what is copied below it depends on the order of the members; and further
  inside it meets itself again and again until the recursion limit, and answers 500
  (`CopyMove.CopyFiles`, `CopyMove.CopyFurtherInside`). On the restricted file system, which
  lists it afterwards, such a copy never succeeds (`Quota.CopyFiles`). A comment in the source
  (`internal/webdav/xnet/file.go:668-669`) warns of it with RFC 4918, section 9.8.3.
* `RestrictedFS.Rename` of a non-empty file to its own name takes its size off the ledger
  (its contract says by how much). MOVE never gets there, because it clears the
  destination first.
* An upload with strategy `rename` whose path cleans to the root itself is accepted, and is
  published beside the root; the ledger then counts bytes that are not below it
  (`Uploads.LedgerExact` says exactly when the ledger is right, `Uploads.UploadToTheRoot` runs
  such an upload, and `Uploads.BesideTheRootHappens` shows that it can be published).
* The chunk client retries a chunk whose answer was lost, but the server has moved on and
  refuses it for good (`UploadOutcome.LostReplyIsFatal`, a state that every upload can reach:
  `UploadOutcome.StuckIsReachable`). `UploadOutcome.CanStillSucceed` says exactly from which
  states an upload can still succeed. Since the server takes chunks only in order, parallel
  workers can fail an upload with no fault at all, exactly when it has two or more chunks
  (`UploadOutcome.FaultlessFailure`). What is published is exact all the same.
* The character range has 0xDF77 where the standard has 0xD7FF; no decoded character is in
  the difference (`XmlText.RangeIsXmlChar`).
* `internal/webdav/xnet/UPSTREAM.md` says that `handlePut` hands the body to the file
  system's own `Put`. The code opens the file and copies; the model follows the code.
* The uploader's comment says accepted chunks are never uploaded again; after a lost answer
  they are, and are refused.

## Model

| member | source | states |
|---|---|---|
| MemoryLocks.MemLS.RefCountIsLocksBelow | internal/webdav/xnet/lock.go:315-350 | In every valid state a name is in the tree exactly when some live lock is at or below it, and its reference count is the number of those locks |
| MemoryLocks.MemLS.LocksHaveDistinctRoots | internal/webdav/xnet/lock.go:291-350 | No two live locks have the same root |
| MemoryLocks.MemLS.HeapIsTheExpiringLocks | internal/webdav/xnet/lock.go:386-415 | A live lock is in the heap exactly when it is unheld and can expire; it knows its slot, or -1; and the entry on top expires no later |
| MemoryLocks.MemLS.CanCreate | internal/webdav/xnet/lock.go:291-313 | Looking only at the path to the root decides whether any live lock anywhere conflicts: same root, infinite lock above, or, for an infinite request, any lock below |
| MemoryLocks.MemLS.CollectExpiredNodes | internal/webdav/xnet/lock.go:138-145 | Terminates, and removes exactly the unheld locks whose expiry is at or before the given time |
| MemoryLocks.MemLS.HeapPush | internal/webdav/xnet/lock.go:402-406 | Pushing keeps the heap order, the slots and the other entries |
| MemoryLocks.MemLS.HeapRemove | internal/webdav/xnet/lock.go:336-350 | Removing any slot keeps heap order and slots, loses only that entry, and marks it as outside |
| HeapOrder.RootIsLeast | internal/webdav/xnet/lock.go:392-394 | In an ordered heap nothing expires before the entry on top |
| MemoryLocks.MemLS.CountRoot | internal/webdav/xnet/lock.go:315-334 | Adding a root makes the counts on its path right for the larger set of roots, creating the missing nodes |
| MemoryLocks.MemLS.UncountRoot | internal/webdav/xnet/lock.go:336-350 | Removing a root makes the counts right again and drops the nodes that nobody needs |
| MemoryLocks.MemLS.Remove | internal/webdav/xnet/lock.go:336-350 | Takes exactly one lock out of all three indexes |
| MemoryLocks.MemLS.Create | internal/webdav/xnet/lock.go:232-250 | Refines creation on a plain set of locks: after expiry, either a fresh token and one more lock, or refusal exactly when a lock conflicts |
| MemoryLocks.MemLS.LookupNode | internal/webdav/xnet/lock.go:192-210 | Finds the first presented token whose unheld lock covers the name; the string tests agree with the tree order on names |
| MemoryLocks.MemLS.Hold | internal/webdav/xnet/lock.go:212-220 | Claims exactly one lock and takes it out of the heap; claiming twice is excluded, so the panic is unreachable |
| MemoryLocks.MemLS.Unhold | internal/webdav/xnet/lock.go:222-230 | Frees exactly one lock and puts it back in the heap if it can expire |
| MemoryLocks.MemLS.Confirm | internal/webdav/xnet/lock.go:147-173 | Claims for both names or for neither; the locks found are exactly those of the specification, one claim when both names have the same lock |
| MemoryLocks.MemLS.Release | internal/webdav/xnet/lock.go:174-184 | Frees exactly the locks that the confirmation claimed |
| MemoryLocks.MemLS.Refresh | internal/webdav/xnet/lock.go:252-273 | An unheld live lock gets the new duration, counted from now; a held or missing lock is refused and nothing but expiry happens |
| LockSpec.RefreshMeans | internal/webdav/xnet/lock.go:260-272 | A refresh keeps root, depth, owner and hold of the lock and every other lock; at any later time the lock is gone exactly if nobody holds it and the new duration has passed since the refresh |
| MemoryLocks.RefreshThenUnlock | internal/webdav/xnet/lock.go:252-289 | Refreshing and then unlocking at a later time: the unlock succeeds exactly if the duration is infinite or has not passed since the refresh, and otherwise finds no lock; the other locks are as they were |
| MemoryLocks.MemLS.Unlock | internal/webdav/xnet/lock.go:275-289 | Removes an unheld live lock; a held or missing lock is refused and nothing but expiry happens |
| LockSpec.ConflictIsOverlap | internal/webdav/xnet/lock.go:291-313 | Two locks conflict exactly when some resource would be covered by both |
| LockSpec.AtMostOneCover | internal/webdav/xnet/lock.go:192-210 | If no two locks conflict, at most one covers a resource, so the first match is the only one |
| Paths.WalkToRoot | internal/webdav/xnet/lock.go:352-366 | The walk visits exactly the prefixes of a name, longest first, and ends |
| Paths.CoverTest | internal/webdav/xnet/lock.go:201-205 | The test on strings for "equal, or below the root of an infinite lock" holds exactly for names below it |
| Decimal.ItoaInjective | internal/webdav/xnet/lock.go:133-136 | Different counters give different tokens |
| LockProtocol.RunKeepsInv | internal/webdav/xnet/lock.go:147-289 | The invariant over every interleaving of lock, unlock, refresh, temporary locks, claims and releases |
| LockProtocol.ExclusiveAccess | internal/webdav/xnet/webdav.go:108-179 | No two requests have confirmed the same name at the same time |
| LockProtocol.ExclusiveCover | internal/webdav/xnet/lock.go:291-313 | At every moment of every run at most one live lock covers a resource |
| LockProtocol.HeldIsPartitioned | internal/webdav/xnet/lock.go:212-230 | In every run the held locks are exactly those of the outstanding claims, each of one request only |
| LockProtocol.HeldLockIsPinned | internal/webdav/xnet/lock.go:252-289 | No step changes a held lock except the release of the request that holds it |
| LockServer.Server.ClaimKept | internal/webdav/xnet/lock.go:212-230 | The nodes a claim remembers still stand for its locks, which are held, after any step that keeps those locks held |
| LockServer.ClaimPinned | internal/webdav/xnet/lock.go:252-289 | What a request has claimed stays held through every step but its own release |
| LockServer.Server.Confirm | internal/webdav/xnet/lock.go:147-173 | On the classes: a claim is a step of the protocol, and its nodes are remembered beside those of all outstanding claims |
| LockServer.Server.Release | internal/webdav/xnet/lock.go:174-184 | An outstanding claim can be released after anything else that was done since, without the panic; the other claims keep their nodes |
| LockServer.Server.UnlockForRequest | internal/webdav/xnet/webdav.go:133-141 | A temporary lock is still there when its request gives it up, and then is gone |
| LockRequests.Serve | internal/webdav/xnet/lock.go:147-289 | Any calls in any order, releases in any order: each is answered by the event that the state it finds demands, or by none if nobody can make it, and no panic is reached. A request that makes none of the calls keeps what it has in every state between |
| LockRequests.Make | internal/webdav/xnet/lock.go:147-289 | One call: the event it adds is determined by the state it finds, refusals included |
| LockRequests.ConfirmLocks | internal/webdav/xnet/webdav.go:108-179 | The confirmation of a write request, with any calls of other requests between its steps. A request that may proceed has exactly the names it confirmed, by locks that cover them: the path of the request, or for a tagged list that of its tag, by held locks that the list presented. Any other has nothing, and each list before the deciding one, or a temporary lock, was refused by the locks of some state met on the way |
| LockRequests.ReleaseLocks | internal/webdav/xnet/webdav.go:133-141 | Its release, with calls of others between its steps: it can be run, and afterwards the request has nothing |
| LockRequests.HandleWrite | internal/webdav/xnet/webdav.go:108-179 | In every state from a successful confirmation to the beginning of its release the request has the names it confirmed, and no other request has any of them, whatever the others do; how the confirmation comes out is justified as above |
| LockServer.Server.ExclusiveRequests | internal/webdav/xnet/webdav.go:108-179 | In every state of a server no two requests have the same name |
| LockServer.Server.ExclusiveClaims | internal/webdav/xnet/lock.go:192-230 | In every state of a server the nodes of outstanding claims are held, and no resource is under two of them |
| LockHandler.ConfirmTemporarily | internal/webdav/xnet/webdav.go:93-141 | Without an If header: succeeds exactly when both names can be locked and differ; on failure every unexpired lock is as it was |
| LockHandler.ConfirmLists | internal/webdav/xnet/webdav.go:143-178 | The first list that does not fail decides: 404 if its tag is outside the prefix, otherwise the request proceeds; 412 when all fail. An untagged list fails exactly if no unheld lock whose token it presents covers the request path, a tagged one likewise for the path of its tag. What has been claimed covers that path, and the destination |
| LockHandler.ConfirmLocks | internal/webdav/xnet/webdav.go:108-179 | Exactly when a request may proceed and which locks it then has: both temporary locks if they can be taken, else 423; the claim of the first list that does not fail, which covers the path that this list is about, else 412 or 404; 400 for a malformed header. If not, every unexpired lock is as it was; if so, its release would undo what it took |
| LockHandler.ConfirmThenRelease | internal/webdav/xnet/webdav.go:133-141 | A confirmation followed at once by its release leaves the unexpired locks as they were |
| LockHandler.HandleLock | internal/webdav/xnet/webdav.go:406-498 | Refresh of the single named lock, or a new lock that is given up again when its resource cannot be created |
| LockHandler.HandleUnlock | internal/webdav/xnet/webdav.go:500-521 | Removes the lock whose token stands between angle brackets; the error cases by status |
| LockHandler.LockThenUnlock | internal/webdav/xnet/webdav.go:484-521 | What LOCK answers is what UNLOCK takes: 204 exactly as long as the duration has not passed, then 409; the other locks are as they were |
| LockHandler.RefreshThenUnlock | internal/webdav/xnet/webdav.go:418-433 | A lock that LOCK refreshes can be unlocked exactly as long as the new duration has not passed since the refresh; the other locks are as they were |
| LockHandler.RefreshHeader | internal/webdav/xnet/webdav.go:418-429 | A refresh takes the token of a header with one list of one condition; several lists, several conditions or an ETag are refused with 400 |
| ScopedLocks.UsersDoNotBlock | internal/webdav/locks.go:16-34 | Lock requests of users with disjoint roots, each staying below its root, neither conflict nor cover one another |
| ScopedLocks.NoneBlocks | internal/webdav/locks.go:16-34 | No lock below a disjoint root conflicts with a request exactly when its name is below the own root, or, with depth zero, on the way to it |
| ScopedLocks.OthersNeverBlock | internal/webdav/locks.go:16-34 | The same on the text of the path: exactly when what follows its last climb leads back into the part of the root that was left |
| Paths.ScopedNameClimbs | internal/webdav/locks.go:16-19 | The scoped name is the root without the levels climbed, followed by the rest of the path |
| ScopedLocks.UsersMayBlock | internal/webdav/locks.go:16-19 | One that does not stay below its root: a concrete path names another root, whose lock refuses and covers it |
| ScopedLocks.InsideIsClear | internal/webdav/locks.go:16-34 | A path from which no ".." climbs out meets no lock below a disjoint root |
| ScopedLocks.SameUserConflicts | internal/webdav/locks.go:16-34 | For one user, requests on clean names conflict exactly when the resources do |
| Paths.ScopedNameOnClean | internal/webdav/locks.go:16-19 | On clean names the scoped name is injective and keeps "is below" in both directions |
| Paths.ScopedNameStaysInside | internal/webdav/locks.go:16-19 | The scoped name is the cleaned path under the root exactly when no ".." reaches above the path itself |
| Paths.SlashCleanRender | internal/webdav/xnet/file.go:23-28 | Cleaning a clean name gives it back |
| Paths.SlashCleanIsClean | internal/webdav/xnet/file.go:23-28 | Cleaning always gives a clean name |
| Paths.CleanDots | internal/webdav/xnet/file.go:23-28 | Whatever precedes them: a slash more and a single dot change nothing, two dots lead to the parent, and above the root there is nothing |
| Paths.InDirectoryIsInside | internal/webdav/xnet/file.go:68-79 | A resolved name is inside the directory, and equal to another exactly when the cleaned names are; a NUL is refused |
| IfHeaders.Lex | internal/webdav/xnet/if.go:133-173 | The loop computes the first token and the rest |
| IfHeaders.ParseCondition | internal/webdav/xnet/if.go:105-120 | Reads one condition of the grammar, or fails exactly when there is none |
| IfHeaders.ParseList | internal/webdav/xnet/if.go:83-103 | Reads one parenthesised list, which must not be empty, and leaves the tokens after it |
| IfHeaders.ParseNoTagLists | internal/webdav/xnet/if.go:40-52 | Accepts exactly the sequences of untagged lists |
| IfHeaders.ParseTaggedLists | internal/webdav/xnet/if.go:54-81 | Accepts exactly the sequences in which every tag is followed by a list, and gives each list its tag |
| IfHeaders.ParseIfHeader | internal/webdav/xnet/if.go:28-38 | Terminates on every string with the outcome of the specification |
| IfHeaders.AcceptsTheGrammar | internal/webdav/xnet/if.go:28-120 | A header is accepted with a meaning exactly when its tokens are a sentence of the grammar with that meaning |
| IfHeaders.ParsePrint | internal/webdav/xnet/if.go:28-173 | Parsing the canonical printing of any header made of non-empty lists gives the header back |
| IfHeaders.ParseSpaced | internal/webdav/xnet/if.go:28-38 | Blanks and tabs between the tokens of such a header, and white space around it, change nothing |
| IfHeaders.BareWord | internal/webdav/xnet/if.go:105-120 | A word without brackets is a state token, not an ETag |
| IfHeaders.ParsedIsPrintable | internal/webdav/xnet/if.go:28-173 | Everything the parser returns can be printed and parsed again to the same header |
| XmlPrinter.Printer.SetAttrPrefix | internal/webdav/xnet/internal/xml/marshal.go:525-546 | The two maps stay inverse and the binding is set or removed |
| XmlPrinter.Printer.Bijection | internal/webdav/xnet/internal/xml/marshal.go:525-546 | In every valid state a prefix stands for a namespace exactly when the namespace has that prefix |
| XmlPrinter.Printer.XmlnsIsNoPrefix | internal/webdav/xnet/internal/xml/marshal.go:349-355 | In every valid state the prefix "xmlns" is not in force, and a start tag that declares it is rejected |
| XmlPrinter.Printer.PushPrefix | internal/webdav/xnet/internal/xml/marshal.go:482-488 | A binding and its undo record, which plays back to the saved environments |
| XmlPrinter.Printer.PopPrefix | internal/webdav/xnet/internal/xml/marshal.go:511-520 | The environment is exactly what it was at the innermost mark |
| XmlPrinter.Printer.DefineNS | internal/webdav/xnet/internal/xml/marshal.go:349-395 | What a declaration brings into force, and the one error |
| XmlPrinter.Printer.FreePrefix | internal/webdav/xnet/internal/xml/marshal.go:442-451 | The search ends with the first numbered prefix that is not in force |
| XmlPrinter.Printer.CreateNSPrefix | internal/webdav/xnet/internal/xml/marshal.go:403-455 | Afterwards the namespace can be spelled, no binding in force has been shadowed, and the bindings are those of the specification |
| XmlPrinter.Printer.WriteNamespaces | internal/webdav/xnet/internal/xml/marshal.go:460-478 | What is written declares bindings in force, and every binding that changed since the mark is declared |
| XmlPrinter.Printer.WriteStart | internal/webdav/xnet/internal/xml/marshal.go:839-890 | Succeeds exactly for the start tags that are not rejected; the text so far still reads back exactly if this tag does |
| XmlPrinter.Printer.WriteEnd | internal/webdav/xnet/internal/xml/marshal.go:902-924 | Succeeds exactly for the innermost open element, and restores the environment from before its start tag |
| XmlPrinter.Printer.EncodeToken | internal/webdav/xnet/internal/xml/marshal.go:201-254 | Start and end tags are taken exactly when well nested; the bindings move as specified and the round trip is kept exactly by tags that read back |
| XmlPrinter.Printer.RoundTrip | internal/webdav/xnet/internal/xml/marshal.go:839-924 | In every state, reading what was written gives the same elements and attributes with the same namespaces exactly if every start tag reads back; then the reader agrees on what is in force |
| XmlPrinter.Encode | internal/webdav/xnet/internal/xml/marshal.go:201-254 | A stream is encoded exactly when it is well nested, and reading the encoding gives it back exactly when each start tag reads back with the bindings inside it |
| XmlPrinter.AlwaysReadBack | internal/webdav/xnet/internal/xml/marshal.go:349-455 | Streams that declare neither the prefix "xml" nor one spelled like the XML namespace, and name no element "xmlns" in a namespace, read back |
| XmlPrinter.UnreservedReadsBack | internal/webdav/xnet/internal/xml/marshal.go:349-455 | As long as no reserved prefix is declared, a start tag reads back exactly when it is not an element "xmlns" in the default namespace inside it |
| XmlPrinter.ExplicitFirst | internal/webdav/xnet/internal/xml/marshal.go:849-880 | A prefix that a start tag declares for a namespace that has none is in force inside it, whatever else the tag declares or needs, in whatever order |
| XmlPrinter.LastElement | internal/webdav/xnet/internal/xml/marshal.go:403-455 | The prefix made for a namespace is its last path element, "_" if that cannot be a prefix, and never one that begins with "xml" |
| XmlPrinter.EncodeDeclaredXml | internal/webdav/xnet/internal/xml/marshal.go:349-395 | What the printer writes for an element in a namespace that its start tag declares as "xml" does not read back |
| XmlPrinter.EncodeXmlnsElement | internal/webdav/xnet/internal/xml/marshal.go:839-890 | What the printer writes for an element "xmlns" whose start tag makes its namespace the default does not read back |
| XmlSpec.TranslateSpelled | internal/webdav/xnet/internal/xml/xml.go:332-348 | The exact condition for a spelled name to be read back, with any prefixes declared |
| XmlSpec.StartMeaning | internal/webdav/xnet/internal/xml/xml.go:272-348 | A reader gets the name and the attributes of a written start tag exactly if all of them read back in the environment inside it |
| XmlSpec.DeclareAgrees | internal/webdav/xnet/internal/xml/xml.go:272-325 | If a writer declares everything it changed, its reader agrees afterwards |
| XmlSpec.UndeclaredPrefix | internal/webdav/xnet/internal/xml/xml.go:332-348 | In any stream, a prefix that no tag declares is its own namespace wherever it is used; "xml" is the XML namespace, and elements without a prefix have none |
| XmlSpec.ReadsOnlyNested | internal/webdav/xnet/internal/xml/xml.go:465-499 | A reader accepts only streams in which every end tag closes the innermost element, and knows which elements are open |
| XmlDecoder.Decoder.Push | internal/webdav/xnet/internal/xml/xml.go:379-390 | One more cell on the stack, from the free list or new; stack and free list stay disjoint and acyclic |
| XmlDecoder.Decoder.Pop | internal/webdav/xnet/internal/xml/xml.go:392-400 | One cell moves from the stack to the free list |
| XmlDecoder.Decoder.PopElement | internal/webdav/xnet/internal/xml/xml.go:465-499 | Succeeds exactly on the innermost element, and brings back the scope from before its start tag, however often it declared a prefix |
| XmlDecoder.Decoder.Token | internal/webdav/xnet/internal/xml/xml.go:272-325 | Each token is the step of the reader specification; at a mark, and at the end of the input, it is EOF and nothing is consumed |
| XmlDecoder.Decoder.PushEOF | internal/webdav/xnet/internal/xml/xml.go:405-427 | The mark goes under the innermost element and its undo records |
| XmlDecoder.Decoder.PopEOF | internal/webdav/xnet/internal/xml/xml.go:431-437 | Takes a mark away exactly when it is on top |
| XmlDecoder.EofExactlyAtTheEnd | internal/webdav/xnet/internal/xml/xml.go:405-437 | Above a mark, a reader sees EOF exactly when the marked element has ended |
| XmlDecoder.Decoder.Skip | internal/webdav/xnet/internal/xml/read.go:676-691 | Succeeds exactly if the tags up to the end of the innermost element can be read, consumes exactly those, and restores the scope around it |
| XmlDecoder.Decoder.UnmarshalInterface | internal/webdav/xnet/internal/xml/read.go:182-199 | For any reader, as the steps that it takes (tokens, elements skipped, elements handed on to others, nested to any depth, giving up): the outcome is what its steps come to, success only when exactly that element has been consumed, as if it had been skipped; nothing below it is ever touched |
| XmlDecoder.ConsumedExactly | internal/webdav/xnet/internal/xml/read.go:182-199 | A reader of any steps that is successful has consumed exactly the rest of its element: scope, open elements and remaining input are those after skipping it |
| XmlDecoder.ReadersSucceed | internal/webdav/xnet/internal/xml/read.go:182-199 | A reader that takes tokens is successful exactly if the element can be read to its end and it takes at least that many; one that skips the element exactly if it can be read; one that gives up never |
| XmlRoundTrip.RoundTrip | internal/webdav/xnet/internal/xml/marshal.go:201-254 | Encoder, then decoder: a stream comes back with the same names, namespaces and attribute values exactly when it is well nested and each start tag reads back |
| XmlText.RangeIsXmlChar | internal/webdav/xnet/internal/xml/xml.go:1128-1135 | The tested range differs from the XML character range exactly on surrogates, so on no decoded character |
| XmlText.EscapeText | internal/webdav/xnet/internal/xml/xml.go:1883-1967 | The loop that copies runs computes the escaping of every piece |
| XmlText.ReadText | internal/webdav/xnet/internal/xml/xml.go:960-1123 | The loop computes the specification of reading, for content, quoted values and CDATA; what that means is in the rows below |
| XmlText.EscapedReadsBack | internal/webdav/xnet/internal/xml/xml.go:960-1123 | Escaped text reads back as the original with unrepresentable pieces replaced, for content and both quotes, with or without newline escapes, and stops exactly at the delimiter |
| XmlText.EscapedIsInert | internal/webdav/xnet/internal/xml/xml.go:1883-1967 | Escaped text has no quotes, angle brackets, tabs or carriage returns in it and, if that is asked for, no newlines |
| XmlText.SpelledReadsBack | internal/webdav/xnet/internal/xml/xml.go:948-1123 | However the characters of a text are written, by themselves, by the five standard names, or by number in base 10 or in base 16 with either case, the text reads back, for content and both quotes; it is refused exactly if a character is out of range |
| XmlText.NumberedReference | internal/webdav/xnet/internal/xml/xml.go:1014-1047 | For every number: the reference in base 10 or 16 is the character with that number, the replacement character for a surrogate, and nothing beyond the last character |
| XmlText.OtherNames | internal/webdav/xnet/internal/xml/xml.go:1048-1075 | No name but the five is read |
| XmlText.PlainTextRead | internal/webdav/xnet/internal/xml/xml.go:995-1106 | Text without markup is read with its line ends normalised, and refused exactly when it contains "]]>" or a character out of range |
| XmlText.CDataRead | internal/webdav/xnet/internal/xml/xml.go:965-990 | A CDATA section is everything before its first end marker, with line ends normalised |
| XmlText.CDataOpen | internal/webdav/xnet/internal/xml/xml.go:965-978 | Without an end marker there is no CDATA section |
| FileTree.WalkMeaning | internal/webdav/xnet/file.go:169-218 | A walk succeeds exactly when the parent is a directory, and fails as invalid exactly when it meets a file |
| MemoryFiles.MemFS.ViewIsTree | internal/webdav/xnet/file.go:132-140 | In every valid state the nodes form a tree of paths: no node has two names and every parent is a directory |
| MemoryFiles.MemFS.Find | internal/webdav/xnet/file.go:230-241 | The walk over the string finds the parent node and the last component, or the walk error; its panic is unreachable |
| MemoryFiles.MemFS.Mkdir | internal/webdav/xnet/file.go:243-264 | Refines making a directory on the map of paths |
| MemoryFiles.MemFS.OpenFile | internal/webdav/xnet/file.go:266-324 | Refines opening, creating and truncating; the file stands for the node of that path, at position 0, and knows its children |
| MemoryFiles.OpenThenWrite | internal/webdav/xnet/file.go:266-324 | Opening and then writing: with truncation exactly what was written is left under the old permissions, without it what was written is put over the old contents; every other entry stays; exactly when it succeeds, and otherwise nothing has changed |
| FileTree.OpenChanges | internal/webdav/xnet/file.go:266-324 | Exactly when opening succeeds, and that it makes at most an empty file, empties a file only to write with truncation, and changes nothing else |
| FileTree.OpsSucceed | internal/webdav/xnet/file.go:243-264 | Exactly when making, removing and looking up succeed, and what is there then |
| MemoryFiles.MemFS.RemoveAll | internal/webdav/xnet/file.go:326-340 | Refines removing a whole subtree |
| MemoryFiles.MemFS.Rename | internal/webdav/xnet/file.go:342-391 | Refines moving a subtree, with its refusals |
| MemoryFiles.MemFS.Stat | internal/webdav/xnet/file.go:393-409 | Refines looking a path up |
| FileTree.RenameMoves | internal/webdav/xnet/file.go:342-391 | A successful rename moves exactly the old subtree, drops what was there, leaves the rest, and never puts a directory below itself |
| FileTree.RenameSucceeds | internal/webdav/xnet/file.go:342-391 | Exactly when a rename succeeds: always to the name itself, otherwise from what is there to a place in a directory, not below itself, a directory only over an empty one |
| FileTree.RenameBack | internal/webdav/xnet/file.go:342-391 | A rename to a free name and back restores the tree |
| FileTree.OpsKeepTree | internal/webdav/xnet/file.go:243-340 | Making, opening and removing keep every parent a directory |
| MemoryFiles.MemFile.Read | internal/webdav/xnet/file.go:503-515 | The next bytes at the position, or the end of the file |
| MemoryFiles.MemFile.Seek | internal/webdav/xnet/file.go:544-564 | The new position, which must not be negative |
| MemoryFiles.MemFile.Write | internal/webdav/xnet/file.go:570-606 | The three cases of the code overwrite at the position, fill a gap with zeros and extend the file |
| MemoryFiles.OverwrittenBytes | internal/webdav/xnet/file.go:570-606 | Byte by byte: what was written, what was there, zeros between; what was written reads back |
| CopyMove.CopyFiles | internal/webdav/xnet/file.go:662-755 | For all paths: nothing outside the destination changes, and the status and, on success, the tree are the specified ones; a failure between disjoint paths that is not for depth changes nothing |
| CopyMove.CopySucceeds | internal/webdav/xnet/file.go:662-755 | For disjoint paths, and for a new member of the source, an infinite copy succeeds exactly when there is a source, a directory to put it in, leave to overwrite, and nothing 1000 levels deep; 201 exactly when the destination was absent |
| CopyMove.CopyMayNotReplace | internal/webdav/xnet/file.go:670-692 | For all paths: 412 exactly when something would be replaced and may not be; then nothing has changed |
| CopyMove.CopyAnswers | internal/webdav/xnet/file.go:670-755 | The other answers: 404 and 500 for a source that is not there, 403 for a destination below a file or for the root, 500 for depth, 204 and 201 |
| CopyMove.MissingParent | internal/webdav/xnet/file.go:705-745 | Into a missing parent a file is refused with 409 and a collection with 403 |
| CopyMove.CopyOntoAncestor | internal/webdav/xnet/file.go:662-755 | A collection copied with its members onto itself or onto one around it leaves an empty collection, and 404 unless it was empty |
| CopyMove.CopyFurtherInside | internal/webdav/xnet/file.go:662-755 | A copy with members to a place further inside the source never succeeds, and fails with 500 once there is a place to put it |
| CopyMove.CopyIsTheSource | internal/webdav/xnet/file.go:711-735 | After a copy the destination subtree equals the source subtree and the rest is unchanged |
| CopyMove.MoveFiles | internal/webdav/xnet/file.go:611-636 | Status and tree are those of the specification, also when the rename fails after the destination has been removed |
| CopyMove.MoveSucceeds | internal/webdav/xnet/file.go:611-636 | Something is moved exactly for disjoint paths with a source and a place to go; it is then a copy followed by the removal of the source. A reported success has moved something exactly if the names differ |
| CopyMove.MoveMayNotReplace | internal/webdav/xnet/file.go:611-632 | 412 exactly when something would be replaced and may not be, and then nothing has changed; any other failure is 403 |
| CopyMove.FailedMove | internal/webdav/xnet/file.go:621-632 | A failed move leaves the tree alone exactly when the destination was absent, protected or the root |
| CopyMove.LostDestination | internal/webdav/xnet/file.go:611-636 | Moving what is not there over what is removes the destination and answers 403 |
| CopyMove.MoveOntoItself | internal/webdav/xnet/file.go:611-636 | Exactly when a move of a name onto itself reports success: 204 for a resource that it removes, 201 where there is none |
| CopyMove.WalkFS | internal/webdav/xnet/file.go:762-806 | For any visitor: only what no directory above was told to skip, once each, a directory before what is in it; all of it unless the visitor stops or skips at a file; nothing after a stop |
| Quota.FileAndLockAgree | internal/webdav/restricted.go:43-74 | File and lock of a request are the same path below the root exactly when no ".." climbs above the path; always so for accepted relative paths |
| Quota.RefusedNames | internal/webdav/restricted.go:43-58 | A name is refused for its text exactly if it is relative and climbs out of where it starts |
| Quota.PathSize | internal/webdav/restricted.go:233-245 | The sum of the sizes of all files at and below the path |
| Quota.RestrictedFS.RemoveAll | internal/webdav/restricted.go:174-199 | The ledger falls by exactly the bytes removed, also when its commit fails (then that amount is lost) |
| Quota.RestrictedFS.Rename | internal/webdav/restricted.go:200-231 | The ledger stays exact, except that renaming a file to its own name drifts it by the size of the file |
| Quota.QuotaFile.Write | internal/webdav/restricted.go:143-151 | Refused exactly when the bytes counted so far and these exceed the quota, and then nothing is written |
| Quota.QuotaFile.Close | internal/webdav/restricted.go:153-173 | Publishes all or nothing; the drift changes by what was replaced less what was there at opening |
| Quota.Put | internal/webdav/xnet/webdav.go:262-302 | Keeps ledger and quota bound. When nothing is refused by the system and no commit fails: 201 exactly if there is a directory to put the file in, no directory in its place, room for the body, and it does not break off; 507 exactly if there is a place and no room. 201 publishes exactly the body, a body that breaks off is published as far as it came, 507 changes nothing; 409 exactly for a missing parent |
| Quota.Delete | internal/webdav/xnet/webdav.go:232-260 | Keeps the ledger; removes exactly the subtree, and undisturbed does so for what is there, except the root; 404 exactly if nothing is there and no file stands above |
| Quota.CreateForLock | internal/webdav/xnet/webdav.go:464-477 | Keeps the ledger; makes an empty file where nothing was, and says so, or says why not; undisturbed exactly when there is a directory for it |
| Quota.MoveFiles | internal/webdav/xnet/file.go:611-636 | Keeps the ledger whatever happens; on success the source has moved to the cleared destination, 201 exactly if nothing was there. 412 exactly for a destination that may not be replaced; undisturbed it succeeds exactly for disjoint paths with a source and a place to go |
| Quota.CopyFiles | internal/webdav/xnet/file.go:662-755 | Keeps ledger and quota bound however far it gets; changes nothing outside the destination; after 507 nothing is left there; a success has made the copied tree, only the entry over the source or a collection around it, and with members inside the source there is none. Undisturbed, between disjoint paths or without members, it succeeds exactly if there is a source, a place, leave to replace, no depth of 1000 and room for its bytes once the destination is gone; when only room is missing it is 507; 201 exactly if the destination was absent; 404 or 500 for a missing source, 412 for what may not be replaced, 403 below a file |
| Quota.Serve | internal/webdav/restricted.go:104-231 | Over any run of serial requests the ledger keeps its distance from the bytes in the tree, and usage stays within the larger of its old value and the quota |
| TreeSize.BytesMoved | internal/webdav/restricted.go:200-231 | A move keeps all bytes but those of what it replaces |
| TreeSize.BytesCopied | internal/webdav/xnet/file.go:662-755 | A copy puts the bytes of the source in place of those at the destination |
| Uploads.Manager.Create | internal/upload/upload.go:39-78 | Exactly when and why a session is refused; an accepted one has the size that will be replaced; ids are never reused |
| Uploads.Manager.OrdinaryUpload | internal/upload/upload.go:39-78 | An upload to a clean name is accepted over a file, whatever the strategy; over a directory only to be renamed; otherwise exactly if no file stands above |
| Uploads.Manager.Chunk | internal/upload/upload.go:79-113 | Accepts exactly the next chunk, appends it whole, and gives the session up when it is too long |
| Uploads.AcceptedInOrder | internal/upload/upload.go:79-113 | A chunk is accepted exactly if it is the next one and there is room for it, and then is appended whole; one out of order leaves the session alone, one that is too long ends it |
| Uploads.Manager.Complete | internal/upload/upload.go:114-150 | Ends the session; publishes its bytes at most once and only when all have come, as the run of a whole upload assumes; the drift changes by what was replaced less what was there at the beginning. When nothing is refused by the system or the database, it publishes exactly if all bytes have come, no file stands above, and what is there is a file to overwrite or is kept by renaming to the first free number |
| Uploads.UploadOver | internal/upload/upload.go:39-150 | Create, one chunk and completion over a file that is there, when nothing is refused: "skip" keeps it, "rename" keeps it and adds the data under the first free number, any other strategy replaces it |
| Uploads.LedgerExact | internal/upload/upload.go:114-150 | Exactly when a publication leaves the ledger exact: an unchanged size for an overwrite; always for skip and rename, except a rename addressed to the root itself |
| Uploads.UploadToTheRoot | internal/upload/upload.go:39-150 | A renaming upload to the root is accepted, and if published lies beside the root and the drift grows by its size |
| Uploads.BesideTheRootHappens | internal/upload/upload.go:130-160 | Such a publication exists for every whole session of this kind |
| Uploads.UniqueName | internal/upload/upload.go:151-160 | Terminates with the first numbered name that is free |
| Uploads.NumberedDiffer | internal/upload/upload.go:151-160 | Different numbers give different names |
| Uploads.NumberBeforeExtension | internal/upload/upload.go:151-160 | The number is put before the last dot of the name, or at its end if it has none |
| Uploads.FileInTheWay | internal/upload/upload.go:124-127 | Making the parent directories fails only where a file is in the way |
| Uploads.Manager.Cleanup | internal/upload/upload.go:161-171 | Keeps exactly the sessions that are recent enough |
| UploadRun.ChunksMakeTheFile | web/src/upload-state.ts:33-35 | The parts of a file, in order, are the file, and no smaller number of them is |
| UploadRun.PublishedExactly | web/src/uploader.ts:50-91 | In every interleaving with lost and late messages, what is published is the file, once, from chunks appended once each and in order |
| UploadRun.SuccessIsComplete | web/src/uploader.ts:74-91 | A run that succeeds ends as complete with every chunk done, and the file has been published, or skipped on request |
| UploadOutcome.LostReplyIsFatal | web/src/uploader.ts:57-71 | Once the answer to an accepted chunk is lost, no retry can succeed and neither can the upload |
| UploadOutcome.StuckIsReachable | web/src/uploader.ts:57-71 | That state is reached in three steps from the start of every upload |
| UploadOutcome.CanStillSucceed | web/src/uploader.ts:50-91 | A working upload can still succeed exactly if it has not failed, the session is there, and every waiting worker has its good answer on the way, or its request, or another attempt |
| UploadOutcome.OvertakingFails | web/src/uploader.ts:53-74 | With two or more chunks there is a run that fails although nothing is lost: the second chunk arrives three times before the first |
| UploadOutcome.FaultlessFailure | web/src/uploader.ts:50-74 | An upload can fail with no fault exactly when it has two or more chunks |

## Left out

- HTTP, URLs, JSON, SQL, authentication, configuration and the user interface. What becomes
  of a resource tag after URL parsing and prefix stripping is a function parameter.
- Go's mutexes: each method of the lock system, the file system and the upload manager is
  one atomic step. The 64-bit token counter does not wrap; times are integers.
- `Not` and ETag conditions have no effect on the lookup, in the source as in the model.
- Byte-level XML: lexing of names, comments, directives and processing instructions, the
  non-strict and auto-closing modes, the decoder's configurable default namespace and
  entity table. Tags are structured values; the Unicode name tables are a parameter.
- Text is read from decoded characters, so malformed UTF-8 in the input of the reader is not
  modelled; in the input of the escaper it is.
- Reflection (`Marshal`, `Unmarshal`, field tables) and dead properties; modification times.
- The capacity of Go slices: file data is a sequence, so writing into spare capacity and
  reallocating are the same thing.
- MemoryFiles.MemFile.Read: directory listings are the snapshot taken when the file is
  opened; reading it in portions is not modelled.
- CopyMove.WalkFS: a serial walk meets no errors of the file system, so what a visitor answers
  to one is not modelled.
- CopyMove.CopyFiles: does not say which members of a collection come before the one that it is
  copied over, nor what a copy that fails for depth leaves below the destination.
- Quota.CopyFiles: a directory that has been removed while it was open has no members, or
  cannot be read; which of the two is up to the operating system, so that for a copy with
  members over its source or a collection around it there is no exact condition of success.
- LockRequests.Serve: a client presents a live token only if LOCK has shown it to somebody; the
  tokens of temporary locks are never shown.
- The real file system, symbolic links and permission bits: `Quota` works on an abstract tree
  in which a removal, rename or write may be refused without effect. Its operations take the
  resolved path; resolving the text of a path is `Quota.LexicalPath`.
- Concurrent requests against one quota: each reads the usage once at its start, so the bound
  is for serial requests.
- Uploads.Manager.Chunk: a body that fails in the middle leaves uncounted bytes in the
  temporary file; bodies are read without error here. One user's root per manager.
- The panel's own file actions (`internal/api/files.go`) and `quota.Recalculate`, which keep
  the ledger under other rules.
