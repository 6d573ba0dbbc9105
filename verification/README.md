# A verified model of cloudserver

These modules model five parts of cloudserver in which state is kept over many calls, and prove
that the parts keep what they promise:

1. **The lock system of the WebDAV server** (`Paths`, `LockTable`, `LockTree`, `ExpiryHeap`,
   `MemLS`, `LockRuns`). Locks are kept in a tree of names with counts, an index by token and a
   heap by expiry. The structure is a class with real nodes that are changed in place. It is
   proved to do exactly what a flat table from token to lock does, and what RFC 4918 (sections
   6.1, 6.2, 6.6, 7.4 and 9.10.3) asks of locks is proved of every run on the table.
2. **XML namespaces and text** (`XmlText`, `XmlNames`, `XmlScope`, `XmlPrinter`, `XmlMarkup`,
   `XmlTags`, `XmlReading`, `XmlDecoder`, `XmlScanBack`, `XmlRoundTrip`). The encoder keeps two maps that are
   inverse to each other and a stack of undo records; the decoder scans text and keeps a map and a
   linked stack with fences. `XmlScope`, `XmlMarkup` and `XmlReading` say on values what they do,
   `XmlPrinter` and `XmlDecoder` do it in place. `XmlTags` is a grammar of markup that the scanner
   accepts exactly, and `XmlScanBack` and `XmlRoundTrip` prove that decoding undoes encoding. `FieldTable` is the table of fields that reading goes by.
3. **The `If` header** (`IfHeader`), section 10.4.2 of RFC 4918: a grammar, the lexer and the
   parsers, which accept exactly the grammar.
4. **Chunked upload** (`ChunkPlan`, `ChunkGroup`, `ChunkStore`): how the client cuts a file and
   retries, how the server checks and appends, and that the file arrives.
5. **Folders, files and storage** (`Tables`, `FolderTree`, `FileSizes`, `FolderCopy`, `Storage`,
   `Deletion`): the database as maps from id to row, with queries that may fail.

`Options` and `Decimals` are shared. All files are verified together: `dafny verify dfyconfig.toml`.

Where the code does something else than its comments or a caller would expect, the model follows
the code, an example shows it and the condition under which all is well is proved:

- the lock generator wraps after 2^64 tokens, and may then hand out a token that is live; the lock
  that had it still blocks its name, but cannot be reached by its token, and when it expires the
  new lock loses the token (`MemLS.LockSystem.Create`, `MemLS.LockSystem.Remove`);
- `Put` copies the body of an overlapping chunk to a handle it has closed, so such a request cuts
  the file and fails, and the next one succeeds (`ChunkStore.InterruptedChunk`); the first chunk
  of a file that must not be overwritten cannot be tried again at all
  (`ChunkStore.FirstChunkIsNotRetried`);
- `UpdateSize` changes the storage even if the row was changed meanwhile, and the handle even if
  the commit fails (`Storage.UpdateSize`), so that a chunk that is cut back after such a failure is
  taken off the storage without having been added (`Storage.UploadChunk`);
- two rows that share an object and are deleted together leave the object behind
  (`Deletion.LeftBehindIff`), and a file chosen twice loses its object but not its row
  (`Deletion.ChosenTwice`, `Deletion.DeletableIffOnce`, `Deletion.BackedIff`);
- `CopyFolderTo` reports success when it cannot list the folders (`FolderCopy.CopyFolderTo`,
  `FolderCopy.FailedListingIsNotReported`), and a copy in which a query fails later has copied
  files that are not charged, so that deleting them can lead below zero (`Storage.Copy`,
  `Storage.ChargeFailsOnce`);
- attributes need no white space between them, and a comment in a directive is left out of it
  (`XmlTags.StartIsReadIff`, `XmlTags.DirectiveIsReadIff`);
- a start tag with a bad declaration is an error, but its end tag is written
  (`XmlScope.BadStartStaysOpen`);
- a prefix `xml` that is declared for another namespace is written but not read as that
  (`XmlRoundTrip.NameComesBackIff`);
- a method that ignores the error of a wrong end tag is taken to have read its element
  (`XmlReading.UnmarshalReadsOneElement`); server and client disagree about chunks of sizes at the
  edge of 64 bits (`ChunkPlan.ServerAgreesIff`).

Names in the table are qualified by module and class. A row for a method on mutable state says
what its contract ties the new state to; the lemmas beside it say what that means over runs.

## Model

| member | source | states |
|---|---|---|
| Paths.SlashCleanIsClean | pkg/webdav/file.go:18-23 | whatever root or name is given, the cleaned one is rooted, has no empty, `.` or `..` segment and no trailing slash; a clean name is left as it is |
| Paths.SlashCleanLaws | pkg/webdav/file.go:18-23 | and which one it is: a trailing slash and a `.` change nothing, `..` goes to the parent or stays at the root, a plain segment is added behind one slash, a leading slash may be missing, and the empty name is the root |
| Paths.PrefixTestIsChain | pkg/webdav/lock.go:192-210 | the string test of `lookup` (same name, root `/`, or prefix followed by a slash) holds exactly for the names `walkToRoot` visits |
| Paths.ChainLinear | pkg/webdav/lock.go:352-366 | of two names on the walk from one name, one is on the walk from the other |
| Paths.ChainTransitive | pkg/webdav/lock.go:352-366 | a walk to the root from a name on a walk stays on that walk |
| Paths.ChainAntisymmetric | pkg/webdav/lock.go:352-366 | two names that lie on each other's walks are the same |
| LockTable.LookupFinds | pkg/webdav/lock.go:187-210 | `lookup` finds an unheld live lock that covers the name and whose token is given, and fails only if there is none |
| LockTable.CoversIff | pkg/webdav/lock.go:192-210 | a lock is on its root and, without zero depth, on exactly the names below it |
| LockTable.ConflictIff | pkg/webdav/lock.go:291-313 | two locks are in conflict exactly if there is a resource both are on |
| LockTable.CreateLaw | pkg/webdav/lock.go:232-250 | Create succeeds exactly if no live lock is in conflict with the one wanted; then that is under the next token, on the cleaned root, with its duration, and the other live locks are as they were |
| LockTable.LockLives | pkg/webdav/lock.go:138-145 | a new lock that is not held is there exactly until its duration has passed, if it has one |
| LockTable.RefreshLaw | pkg/webdav/lock.go:252-273 | Refresh succeeds exactly if the lock is live and not held, and tells which of the two it is not; the lock then has the new duration and expires when that has passed from now on |
| LockTable.UnlockLaw | pkg/webdav/lock.go:275-289 | Unlock succeeds exactly if the lock is live and not held, and tells which of the two it is not; its token is then gone and every other live lock is as it was |
| LockTable.UnlockFrees | pkg/webdav/lock.go:275-289 | after it a lock can be made that only this one was in the way of |
| LockTable.ConfirmLaw | pkg/webdav/lock.go:147-174 | Confirm fails exactly if for a name given there is no live unheld lock among the conditions that covers it; else one for each name is held now, and none besides |
| LockTable.ConfirmOutcome | pkg/webdav/lock.go:147-185 | a confirmation holds locks that were live and not held, and a failed one changes nothing but what expired |
| LockTable.ConfirmSucceedsIff | pkg/webdav/lock.go:147-174 | Confirm succeeds exactly if every name given is covered by an unheld live lock whose token is among the conditions |
| LockTable.ReleaseLaw | pkg/webdav/lock.go:175-184 | a release frees exactly the locks of its confirmation and changes nothing else |
| LockTable.StepKeepsInvariant | pkg/webdav/lock.go:147-289 | every call keeps: no two locks want the same resource, held locks are exactly those of outstanding confirmations, tokens were issued |
| LockTable.RunKeepsInvariant | pkg/webdav/lock.go:38-94 | the same over every run of calls, while the generator does not wrap |
| LockTable.OneLockPerResource | pkg/webdav/lock.go:38-94 | in every reachable state at most one live lock covers a resource |
| LockTable.OneConfirmationPerResource | pkg/webdav/lock.go:147-185 | in every reachable state no resource is covered by two outstanding confirmations, or twice by one |
| LockTable.HeldLocksStay | pkg/webdav/lock.go:138-289 | until its release no call expires, refreshes, unlocks, confirms again or otherwise changes a held lock |
| LockTable.TokensNeverReused | pkg/webdav/lock.go:133-136 | a token that was issued and is no longer live never becomes live again in any later run |
| LockTable.NextTokenUnused | pkg/webdav/lock.go:133-136 | in every reachable state the next token is not in use |
| LockTable.CreateKeepsOtherLocksIff | pkg/webdav/lock.go:232-250 | after a successful Create the tokens of all other live locks lead to them still, exactly if the next token is not a live one |
| LockTable.WrapReusesAToken | pkg/webdav/lock.go:133-136 | an example where the 64-bit generator wraps and a live token is handed out again, for another lock |
| LockTree.LinkKeepsTree | pkg/webdav/lock.go:315-334 | create's walk keeps the tree: `byName` is the ancestor closure of the locked names and each count is the number of locked names below |
| LockTree.UnlinkKeepsTree | pkg/webdav/lock.go:336-350 | so does remove's walk, which drops exactly the nodes no locked name needs any more |
| LockTree.RemoveOutcome | pkg/webdav/lock.go:336-346 | unlocking a node and walking takes exactly its lock out of the flat table |
| LockTree.CreateOutcome | pkg/webdav/lock.go:241-249 | linking and filling in a node adds exactly one lock to the tree and puts it under its token; every locked node is where its token leads exactly if the token was not in use |
| LockTree.ChangeOutcome | pkg/webdav/lock.go:212-230 | rewriting a locked node changes exactly its lock in the flat table |
| LockTree.NodeMeansLockBelow | pkg/webdav/lock.go:297-306 | a node that exists means that it or something below it is locked |
| LockTree.AdmitsAfterCreate | pkg/webdav/lock.go:291-313 | after a Create the walk refuses what conflicts with the new lock or any there was, one that lost its token included |
| LockTree.AdmitsIsCanCreate | pkg/webdav/lock.go:291-313 | canCreate's walk over the tree admits a root exactly if no lock of the flat table conflicts with it |
| ExpiryHeap.Heap.Swap | pkg/webdav/lock.go:396-400 | exchanges two nodes and keeps every node's index its true position |
| ExpiryHeap.Heap.PushLast | pkg/webdav/lock.go:402-406 | appends a node and records its position |
| ExpiryHeap.Heap.PopLast | pkg/webdav/lock.go:408-415 | takes off the last node, whose index becomes -1 |
| ExpiryHeap.Heap.Push | pkg/webdav/lock.go:245-248 | heap.Push: the heap stays in order, its members are the old ones and the new one |
| ExpiryHeap.Heap.Remove | pkg/webdav/lock.go:347-349 | heap.Remove at an index: takes out that node and no other, and the heap stays in order |
| ExpiryHeap.Heap.FirstIsSoonest | pkg/webdav/lock.go:138-142 | the node at the front expires no later than any other |
| MemLS.LockSystem.constructor | pkg/webdav/lock.go:115-121 | a new lock system is the empty table |
| MemLS.LockSystem.LinkToRoot | pkg/webdav/lock.go:315-334 | the walk that counts one more at a name and its ancestors, making missing nodes |
| MemLS.LockSystem.UnlinkToRoot | pkg/webdav/lock.go:339-346 | the walk that counts one less and drops nodes at zero |
| MemLS.LockSystem.CanCreateAt | pkg/webdav/lock.go:291-313 | computes canCreate's answer on the tree |
| MemLS.LockSystem.MayCreate | pkg/webdav/lock.go:238-240 | the answer is that of the flat table |
| MemLS.LockSystem.Remove | pkg/webdav/lock.go:336-350 | takes exactly one unheld lock out of the tree and its node out of the heap, and its token out of the index, which is another lock's token if the generator has wrapped onto it |
| MemLS.LockSystem.CollectExpired | pkg/webdav/lock.go:138-145 | ends, and removes exactly the unheld locks of finite duration whose expiry is not after now |
| MemLS.LockSystem.Create | pkg/webdav/lock.go:232-250 | refines the table's Create: same state, same token or ErrLocked. All stays in order exactly if the token is not a live lock's; if it is, that lock still stands on its name and still blocks it, but its token leads to the new one |
| MemLS.LockSystem.Lookup | pkg/webdav/lock.go:192-210 | finds the node of the lock that the table's lookup finds |
| MemLS.LockSystem.Hold | pkg/webdav/lock.go:212-220 | the lock is held and leaves the heap, nothing else changes; the panic is not reached |
| MemLS.LockSystem.Unhold | pkg/webdav/lock.go:222-230 | the lock is free and, if finite, back in the heap; the panic is not reached |
| MemLS.LockSystem.Confirm | pkg/webdav/lock.go:147-174 | refines the table's Confirm and returns the nodes held, never the same one twice |
| MemLS.LockSystem.Release | pkg/webdav/lock.go:175-184 | refines the table's Release for the nodes of one confirmation |
| MemLS.LockSystem.Refresh | pkg/webdav/lock.go:252-273 | refines the table's Refresh with all its errors |
| MemLS.LockSystem.Unlock | pkg/webdav/lock.go:275-289 | refines the table's Unlock with all its errors, and by itself: success exactly if the token is live and not held; it is then gone, and every other live lock stays as it was |
| LockRuns.Client.constructor | pkg/webdav/lock.go:115-121 | a client of a fresh lock system is at the start of the flat run |
| LockRuns.Client.Make | pkg/webdav/lock.go:38-94 | any call of the client's choice takes structure and table to the same next state, with every invariant kept |
| LockRuns.RunAll | pkg/webdav/lock.go:38-94 | any run on a fresh lock system ends where the run on the flat table ends |
| IfHeader.Lex | pkg/webdav/if.go:133-173 | computes the next token of the header and what follows it; a token that is not the end or an error takes input |
| IfHeader.ReadHeaderIff | pkg/webdav/if.go:28-124 | reading succeeds on exactly the token sequences the grammar spells, with the one form that spells them |
| IfHeader.ParseCondition | pkg/webdav/if.go:105-120 | reads one condition exactly if there is one |
| IfHeader.ParseList | pkg/webdav/if.go:83-103 | reads one non-empty list exactly if there is one |
| IfHeader.ParseNoTagLists | pkg/webdav/if.go:40-52 | reads lists to the end of the header, and none of them has a tag |
| IfHeader.ParseTaggedLists | pkg/webdav/if.go:54-81 | reads tags and lists; every list carries the nearest tag before it, and every tag has a list |
| IfHeader.ParseIfHeader | pkg/webdav/if.go:28-38 | accepts exactly the headers of the grammar, all lists tagged or none, and returns what they mean |
| IfHeader.RoundTrip | pkg/webdav/if.go:28-124 | printing a header and parsing it gives it back, for every header the parser can return |
| IfHeader.AcceptedIsInOrder | pkg/webdav/if.go:28-124 | every result has a list, each list a condition, tokens have no `>` and entity tags no `]` |
| IfHeader.SpacedTokens | pkg/webdav/if.go:133-173 | however a header is spaced, and with bare words in it, its tokens are those it was made of; white space is needed between two words alone |
| IfHeader.ListGetsNearestTag | pkg/webdav/if.go:54-81 | every list, in order, has the nearest tag before it, also where lists share one; words and what is in angle brackets are state tokens, what is in square ones is an entity tag |
| IfHeader.TrimIs | pkg/webdav/if.go:28-29 | white space is taken off both ends of the header, all of it and nothing else |
| XmlText.EscapeText | pkg/webdav/internal/xml/xml.go:1876-1967 | writes each character as itself, as its escape or as U+FFFD, run by run |
| XmlText.ReadReference | pkg/webdav/internal/xml/xml.go:1000-1079 | reads a numeric reference or one of the five names after an ampersand, as the rows below say apart from it |
| XmlText.NumberIsCharacter | pkg/webdav/internal/xml/xml.go:1014-1046 | a number in decimal, or in hexadecimal with letters of either case, is read as the character it numbers; as U+FFFD if it is a surrogate; and is an error exactly if it is too large |
| XmlText.FiveNames | pkg/webdav/internal/xml/xml.go:948-954 | each of the five names, spelled out, is its character |
| XmlText.NoOtherName | pkg/webdav/internal/xml/xml.go:1047-1079 | any other name is an error, and so is one without a semicolon |
| XmlText.Text | pkg/webdav/internal/xml/xml.go:960-1124 | reads text up to markup, a quote or the end of a CDATA section, with references and line ends resolved |
| XmlText.TextIsRead | pkg/webdav/internal/xml/xml.go:960-1124 | any text of literal parts and references is read as what they mean, up to markup, the end or its quote, CR and CRLF as newlines, exactly if all of it are characters of XML |
| XmlText.MisplacedIsError | pkg/webdav/internal/xml/xml.go:968-1010 | the end of a CDATA section in text, an angle bracket in quotes and an ampersand without a reference are errors |
| XmlText.CDataIsRead | pkg/webdav/internal/xml/xml.go:665-683 | a CDATA section is read up to its first end, whatever else is in it, with line ends made newlines; without an end it is an error |
| XmlText.RangeIsXmls | pkg/webdav/internal/xml/xml.go:1128-1135 | the characters allowed are those of section 2.2 of XML 1.0 |
| XmlText.EscapedIsSafe | pkg/webdav/internal/xml/xml.go:1876-1967 | what is written has no markup, no quote, tab or return and, in attributes, no newline in it, and only characters XML allows |
| XmlText.ReferenceReadsBack | pkg/webdav/internal/xml/xml.go:1883-1928 | each escape that is a reference is read as the character it stands for |
| XmlText.TextRoundTrip | pkg/webdav/internal/xml/xml.go:960-1124 | escaped text is read back as it was, in both newline modes; what XML does not allow comes back as U+FFFD |
| XmlText.QuotedRoundTrip | pkg/webdav/internal/xml/xml.go:1932-1967 | so is an attribute value between quotes |
| XmlText.ReadWriteRead | pkg/webdav/internal/xml/xml.go:960-1124 | any text the decoder accepts, CDATA too, survives being written and read again |
| XmlNames.SplitQualified | pkg/webdav/internal/xml/xml.go:1137-1152 | a qualified name is taken apart as it was put together exactly if what stands before the first colon has none |
| Decimals.DecimalInjective | pkg/webdav/internal/xml/marshal.go:444-452 | different numbers give different decimal spellings, so lock tokens and numbered prefixes do not collide |
| Decimals.DecimalSays | pkg/webdav/lock.go:133-136 | a number is spelled in digits that say it, without a leading zero |
| XmlScope.SetKeepsInverse | pkg/webdav/internal/xml/marshal.go:522-546 | setting or removing a prefix keeps `attrNS` and `attrPrefix` inverse to each other |
| XmlScope.SetBackRestores | pkg/webdav/internal/xml/marshal.go:480-520 | setting a prefix back to its recorded URL restores both maps and the default namespace exactly |
| XmlScope.FreeNumberIsFree | pkg/webdav/internal/xml/marshal.go:444-452 | the search for a numbered prefix ends at the first one that is not taken |
| XmlScope.CreatePrefixCreates | pkg/webdav/internal/xml/marshal.go:403-455 | after it, names of the namespace can be written, and whatever could be written before still can |
| XmlScope.HintIsLastPart | pkg/webdav/internal/xml/marshal.go:429-442 | the prefix thought of for a URL is its last part if that can be a prefix, else an underscore, which also goes before what begins like `xml` |
| XmlScope.DeclaredPrefixIsUsed | pkg/webdav/internal/xml/marshal.go:349-395 | a prefix that an attribute declares for a URL stands for it in the tag and spells its names, unless the URL had one or another attribute declares the same |
| XmlScope.DefaultIsUsed | pkg/webdav/internal/xml/marshal.go:349-395 | inside an element with a namespace the default namespace is the one its attributes declare last, if any; inside one without there is none |
| XmlScope.ElementRestoresScope | pkg/webdav/internal/xml/marshal.go:838-924 | over every balanced content, an end tag restores the scope its start tag was met with, and spells the same name |
| XmlScope.BadStartStaysOpen | pkg/webdav/internal/xml/marshal.go:839-858 | a start tag fails exactly if it has no name or declares a default namespace badly; then nothing is written but the element is open, and its end tag is accepted and written without a start tag |
| XmlScope.DefinedUpToBad | pkg/webdav/internal/xml/marshal.go:844-858 | of a start tag that fails, exactly the declarations before the first bad one are followed |
| XmlPrinter.Printer.SetAttrPrefix | pkg/webdav/internal/xml/marshal.go:525-546 | changes the three fields as the pure scope says |
| XmlPrinter.Printer.PushPrefix | pkg/webdav/internal/xml/marshal.go:482-488 | declares a prefix and leaves an undo record that leads back |
| XmlPrinter.Printer.PopPrefix | pkg/webdav/internal/xml/marshal.go:511-520 | undoes down to the mark: the scope outside the element is back |
| XmlPrinter.Printer.DefineNS | pkg/webdav/internal/xml/marshal.go:349-395 | follows a declaration among the attributes, ignores it, or fails, in the same cases |
| XmlPrinter.Printer.FindNumber | pkg/webdav/internal/xml/marshal.go:444-452 | finds the first free numbered prefix |
| XmlPrinter.Printer.CreateNSPrefix | pkg/webdav/internal/xml/marshal.go:403-455 | makes up a prefix where one is needed |
| XmlPrinter.Printer.WriteNamespaces | pkg/webdav/internal/xml/marshal.go:460-478 | declares each prefix of the element, latest first, with the URL it has now |
| XmlPrinter.Printer.WriteStart | pkg/webdav/internal/xml/marshal.go:839-890 | writes the start tag; or fails with nothing written, and then leaves the element open with what it had declared so far |
| XmlPrinter.Printer.WriteEnd | pkg/webdav/internal/xml/marshal.go:902-924 | writes the end tag of the innermost element and restores the scope, or fails with nothing changed |
| XmlPrinter.Printer.EncodeToken | pkg/webdav/internal/xml/marshal.go:201-254 | one token, as the pure printer prints it, and what is left of one that fails |
| XmlPrinter.Encode | pkg/webdav/internal/xml/marshal.go:182-254 | a fresh encoder accepts and writes exactly what the pure printer does |
| XmlReading.TokenTakesInput | pkg/webdav/internal/xml/xml.go:272-325 | every token read takes input, which is why Skip and the callers' loops end |
| XmlReading.TokenMovesLevels | pkg/webdav/internal/xml/xml.go:272-325 | a start tag opens a level inside the present translations; an end tag closes the top one and restores those outside it |
| XmlReading.BindAllUnbinds | pkg/webdav/internal/xml/xml.go:291-308 | taking back what a tag declared, newest first, gives the translations before it |
| XmlReading.BindAllBinds | pkg/webdav/internal/xml/xml.go:291-308 | inside a tag a prefix stands for what the tag says last of it, or else for what it stood for outside |
| XmlReading.ElementNameMeans | pkg/webdav/internal/xml/xml.go:329-348 | the name of an element comes in the namespace its prefix stands for; without a prefix in the default namespace, and with an undeclared prefix with that prefix |
| XmlReading.AttrNameMeans | pkg/webdav/internal/xml/xml.go:310-348 | so does that of an attribute with a prefix; without one it has no namespace; declarations and values stay as they are |
| XmlReading.TokensAreNested | pkg/webdav/internal/xml/xml.go:259-263 | over any calls of Token, Skip and unmarshalling, the tokens read are the beginning of a well-nested document with equal names |
| XmlReading.ElementRestoresNamespaces | pkg/webdav/internal/xml/xml.go:459-499 | calls that read to the end of an element bring back the translations and the open elements from before it |
| XmlReading.SkipReadsOneElement | pkg/webdav/internal/xml/read.go:671-692 | Skip succeeds exactly if the tokens it reads end with the end tag of the element it was called in, and never reads past that |
| XmlReading.SkipClosesElement | pkg/webdav/internal/xml/read.go:671-692 | after a successful Skip the element is gone and the translations outside it are back |
| XmlReading.TokenStopsAtFence | pkg/webdav/internal/xml/xml.go:272-276 | Token changes nothing below a fence, and at the fence reads nothing |
| XmlReading.UnmarshalStops | pkg/webdav/internal/xml/read.go:181-200 | whatever an UnmarshalXML method calls, no token past its element's end tag is read and the stack below stays |
| XmlReading.UnmarshalReadsOneElement | pkg/webdav/internal/xml/read.go:181-200 | if unmarshalling succeeds, exactly one element was read or the method missed an error, and in that case the element was not read to its end |
| XmlReading.HeedfulReadsOneElement | pkg/webdav/internal/xml/read.go:181-200 | if the method and those inside it give up at the first error of Token or Skip, success means no error and exactly one element read |
| XmlReading.ErrorMayBeMissed | pkg/webdav/internal/xml/read.go:190-199 | an example where a method ignores a wrong end tag and unmarshalling still reports success |
| XmlMarkup.ReadStartTag | pkg/webdav/internal/xml/xml.go:749-830 | computes the start tag that the grammar of `XmlTags.StartIsReadIff` spells, or none |
| XmlMarkup.FindCommentEnd | pkg/webdav/internal/xml/xml.go:653-663 | the search by the last two characters ends at the first `-->` and gives the comment |
| XmlMarkup.UntilFinds | pkg/webdav/internal/xml/xml.go:653-663 | where the end of a comment or instruction is found it is not found any sooner, and where it is not found it is nowhere |
| XmlTags.StartIsReadIff | pkg/webdav/internal/xml/xml.go:749-830 | a start tag is read exactly where one is spelled: a name, attributes with white space around their parts and quotes of either kind, and `>` or `/>`; it has the name and attributes that are spelled, and is empty exactly if it ends in `/>` |
| XmlTags.EndIsReadIff | pkg/webdav/internal/xml/xml.go:564-581 | an end tag is read exactly where one is spelled: a name and white space up to `>` |
| XmlTags.EmptyElementIsTwoTokens | pkg/webdav/internal/xml/xml.go:533-545 | an element whose tag ends in `/>` is read in two tokens, its start and its end, and then stack and translations are what they were, whatever the tag declares |
| XmlTags.CommentIsReadIff | pkg/webdav/internal/xml/xml.go:640-663 | a comment is read exactly as what stands before the first `-->` |
| XmlTags.CDataIsReadIff | pkg/webdav/internal/xml/xml.go:665-683 | a CDATA section is read exactly as what stands before the first `]]>`, line ends made newlines, if all of it are characters of XML |
| XmlTags.InstructionIsReadIff | pkg/webdav/internal/xml/xml.go:583-632 | an instruction is read exactly where one is spelled: a name, white space and a content up to the first `?>`; with the name `xml` only if the declaration is accepted |
| XmlTags.ParamIs | pkg/webdav/internal/xml/xml.go:1978-1998 | a parameter has the value between the quotes behind its first occurrence |
| XmlTags.DeclarationIff | pkg/webdav/internal/xml/xml.go:608-628 | a declaration is accepted exactly if its version is 1.0 or empty and its encoding is UTF-8, in capitals or small letters, or empty |
| XmlTags.DirectiveIsReadIff | pkg/webdav/internal/xml/xml.go:685-745 | a directive is read exactly where one is spelled: characters, quoted strings, nested angle brackets and comments, up to the bracket that closes it; the comments are left out |
| XmlMarkup.ReadInstruction | pkg/webdav/internal/xml/xml.go:583-632 | reads a processing instruction, and checks the version and encoding of an XML declaration |
| XmlMarkup.ReadDirective | pkg/webdav/internal/xml/xml.go:685-745 | reads a directive with its quotes and brackets, without the comments in it |
| XmlMarkup.ReadMarkup | pkg/webdav/internal/xml/xml.go:544-830 | one token of a text: tag, character data, CDATA section, comment, instruction or directive, or a syntax error; every token takes input |
| XmlDecoder.Decoder.Push | pkg/webdav/internal/xml/xml.go:379-390 | a record from the free list, or a new one, becomes the top; both lists stay acyclic and apart |
| XmlDecoder.Decoder.Pop | pkg/webdav/internal/xml/xml.go:392-400 | the top record goes to the free list; both lists stay acyclic and apart |
| XmlDecoder.Decoder.PushEOF | pkg/webdav/internal/xml/xml.go:405-427 | the fence goes below the innermost element and the records that belong to it |
| XmlDecoder.Decoder.PopEOF | pkg/webdav/internal/xml/xml.go:431-437 | takes a fence off the top, or says that there is none |
| XmlDecoder.Decoder.PopElement | pkg/webdav/internal/xml/xml.go:465-499 | closes an element or fails, as on values, translations restored in place |
| XmlDecoder.Decoder.RawToken | pkg/webdav/internal/xml/xml.go:533-830 | the next token of the text, the second half of an empty-element tag, or an error that is met again |
| XmlDecoder.Decoder.Token | pkg/webdav/internal/xml/xml.go:272-325 | does to the linked records, maps and input what the pure decoder does |
| XmlDecoder.Decoder.Skip | pkg/webdav/internal/xml/read.go:677-692 | the recursive Skip on the records |
| XmlDecoder.Decoder.UnmarshalInterface | pkg/webdav/internal/xml/read.go:183-200 | the fence around any method's calls on the records |
| XmlScanBack.NameIsReadIff | pkg/webdav/internal/xml/xml.go:1157-1195 | what stands before a character that can be in no name is read, as a whole, exactly if it is a name |
| XmlScanBack.PieceIsScanned | pkg/webdav/internal/xml/xml.go:544-830 | every tag and every run of text that is written is scanned as what it was written for, whatever follows it |
| XmlScanBack.OnlyNamesAreWritten | pkg/webdav/internal/xml/marshal.go:839-924 | given names the encoder writes nothing but names where names are read, its made-up prefixes included, and escaped text elsewhere |
| XmlRoundTrip.NameComesBackIff | pkg/webdav/internal/xml/xml.go:329-348 | where encoder and decoder agree, a written name is read back as it was exactly if its spelling survives: no stray colon, no reserved prefix |
| XmlRoundTrip.CreatePrefixKeepsClean | pkg/webdav/internal/xml/marshal.go:433-454 | prefixes that are made up have no colon and are never `xml` or `xmlns` |
| XmlRoundTrip.StartDeclares | pkg/webdav/internal/xml/marshal.go:844-870 | after the passes over the attributes every name of the tag can be written |
| XmlRoundTrip.PlainIs | pkg/webdav/internal/xml/marshal.go:876-881 | the attributes that come back are those, in order, with a local name that declare nothing, each with its name and, as far as XML allows, its value |
| XmlRoundTrip.StartComesBack | pkg/webdav/internal/xml/xml.go:291-315 | one start tag: its names and plain attributes come back, and encoder and decoder agree inside the element |
| XmlRoundTrip.EncodedTracks | pkg/webdav/internal/xml/marshal.go:182-254 | after any plain tokens the encoder accepts, the decoder has read them back and mirrors every open element |
| XmlRoundTrip.AcceptedIff | pkg/webdav/internal/xml/marshal.go:839-924 | the encoder takes tokens exactly if they are well nested with equal names, every start tag has a name and none declares a default namespace under a prefix |
| XmlRoundTrip.EncodeAndDecode | pkg/webdav/xml.go:416-441 | encode, then decode the text: the same elements, plain attributes and character data, then the end of the input, with no element open exactly if the tokens were balanced |
| XmlRoundTrip.RedeclaredXmlIsLost | pkg/webdav/internal/xml/xml.go:338-339 | an example with the prefix `xml` declared for another namespace, whose element comes back in the wrong one |
| ChunkPlan.NumIsCeiling | pkg/filesystem/chunk/chunk.go:30-52 | for all sizes the number of chunks covers the size, and one chunk less does not |
| ChunkPlan.NumIsExact | pkg/filesystem/chunk/chunk.go:30-52 | if the sizes fit, that number is a signed one too |
| ChunkPlan.ChunkIsExact | pkg/filesystem/chunk/chunk.go:105-141 | start, length and last chunk have their exact values at every index |
| ChunkPlan.ChunksTile | pkg/filesystem/chunk/chunk.go:105-141 | the chunks tile the file without gap or overlap, and none is empty unless the file is |
| ChunkPlan.ServerAgreesIff | service/explorer/upload.go:94-99 | the server's start, length and last chunk equal the client's at every index, chunk size 0 included, exactly if the last chunk's start and length are signed numbers and its nominal end does not wrap |
| ChunkPlan.ServerAgrees | service/explorer/upload.go:94-99 | so they do for sizes that fit |
| ChunkPlan.LargeSizesWrap | service/explorer/upload.go:95 | an example where server and client disagree |
| ChunkGroup.ConstantBackoff.Next | pkg/filesystem/chunk/backoff/backoff.go:16-23 | allows another try while the limit is not passed |
| ChunkGroup.Group.constructor | pkg/filesystem/chunk/chunk.go:30-52 | the group is in order for the file, before its first chunk |
| ChunkGroup.Group.Next | pkg/filesystem/chunk/chunk.go:125-129 | moves to the next chunk, resets the retries and says whether there is one |
| ChunkGroup.Group.CurrentChunk | pkg/filesystem/chunk/chunk.go:105-137 | start and length are those of the chunk's bytes, and a limited read from its start gives them |
| ChunkGroup.Group.Process | pkg/filesystem/chunk/chunk.go:61-103 | every call is offered exactly the chunk's bytes, on a first try, after seeking back or out of the buffer; it is tried again exactly as long as it fails, retries are left, the bytes can be had again and seeking works; the buffer is dropped |
| ChunkGroup.Upload | pkg/filesystem/driver/remote/client.go:84-101 | each chunk in order fares as the answers decide, with one try and at most max more; success means that every chunk was accepted |
| ChunkGroup.CallsOfferParts | pkg/filesystem/driver/remote/client.go:89-101 | every call of an upload is for a chunk of the source and offers its bytes |
| ChunkGroup.DeliveredIsSource | pkg/filesystem/driver/remote/client.go:84-101 | what was accepted, joined, is the source up to the chunk given up, and all of it on success |
| ChunkStore.LocalFile.Truncate | pkg/filesystem/driver/local/handler.go:143-153 | if there is a file, it has the size asked for, with the bytes there were up to there and zeros behind them; else nothing changes |
| ChunkStore.LocalFile.Put | pkg/filesystem/driver/local/handler.go:76-141 | without append it succeeds exactly if the file may be replaced, it opens and the whole body arrives; the file is then exactly the body, what arrived of it if it breaks off, and unchanged if refused; with append the body goes behind the bytes there were, and a file that is too long is cut and the write then fails |
| ChunkStore.PutLaw | pkg/filesystem/driver/local/handler.go:76-141 | the same, of the outcome alone |
| ChunkStore.HandleChunk | service/explorer/upload.go:93-151 | one request: length check, mode, write, and cutting back when a later step fails |
| ChunkStore.RequestKeepsBeginning | service/explorer/upload.go:93-151 | a request with the right bytes leaves a beginning of the source, and is accepted exactly if the chunk starts where the file ends and nothing fails |
| ChunkStore.RefusedRequest | service/explorer/upload.go:93-151 | what a refused request leaves: the file cut back to the chunk's place if it was longer, what arrived if the body broke off, and the bytes before the chunk if a later step failed |
| ChunkStore.WrongLengthIsRefused | service/explorer/upload.go:101-104 | a body that is not as long as its chunk is refused and changes nothing |
| ChunkStore.InterruptedChunk | pkg/filesystem/driver/local/handler.go:124-136 | an interrupted chunk takes two more requests: one that cuts and fails, one that is accepted |
| ChunkStore.FirstChunkIsNotRetried | pkg/filesystem/driver/local/handler.go:81-86 | without overwriting, the first chunk is never accepted once there is a file |
| ChunkStore.HandleAll | service/explorer/upload.go:93-151 | any sequence of requests on the file |
| ChunkStore.RequestsKeepBeginning | service/explorer/upload.go:93-151 | under any order and repetition of right requests the file is a beginning of the source, and the source right after its last chunk is accepted |
| ChunkStore.UploadDelivers | pkg/filesystem/driver/remote/client.go:84-101 | end to end: if the client's upload succeeds the server has the source, whatever was retried or answered in vain |
| Tables.Database.Find | models/folder.go:84-107 | a query answers with every row wanted, each once, in any order |
| FolderTree.GetRecursiveChildFolder | models/folder.go:84-118 | finds level after level with one query each, in at most 65535 rounds on any table, until a level is empty; it succeeds exactly if no query fails |
| FolderTree.FoundIffWithin | models/folder.go:84-118 | what is found are exactly the user's folders that lead up to the start in at most 65535 steps, cycles or not |
| FolderTree.FoundParentsFirst | models/folder.go:103-116 | every folder but the start comes after its parent |
| FolderTree.FoundOnceIff | models/folder.go:84-118 | every folder is found once exactly if the start is not below itself |
| FileSizes.UsedWith | models/user.go:133-135 | a file more, or of another size, changes what its user uses by that, and nobody else's use |
| FileSizes.UsedWithout | models/user.go:133-135 | a file less likewise |
| FolderCopy.CopyFolders | models/folder.go:145-166 | one copy of each folder in the list, in the copy last made of its parent, which is always found; an isomorphic copy if no folder is listed twice; it fails exactly if a query fails |
| FolderCopy.CopyFiles | models/folder.go:177-191 | one copy of each file that is not being uploaded, under the copy of its folder; the size is the sum; it fails exactly if a query fails |
| FolderCopy.CopyFolderTo | models/folder.go:134-193 | the copies are exactly of the folders found below the start and of their files, once each exactly if the start is not below itself; old rows stay, also when copying into a folder below; what has broken off has copied the first of them; an error is told exactly if a query after the listing fails, and if one in the listing fails nothing is copied and nothing told |
| FolderCopy.FailedListingIsNotReported | models/folder.go:135-138 | an example in which nothing is copied and success is reported |
| FolderCopy.CopyFilesTo | models/folder.go:195-222 | copies of the chosen files of one folder; it fails exactly if a query fails |
| Storage.CreateFile | models/file.go:203-219 | row and storage change together or not at all |
| Storage.UpdateSize | models/file.go:83-107 | row and storage change together or not at all; the record stays right exactly if the handle was up to date or nothing was to change; a failed commit still changes the handle |
| Storage.DeleteFiles | models/file.go:161-190 | all the files and their share of the storage, or nothing; it succeeds exactly if no query fails and they can be deleted together |
| Storage.DeletableIff | models/file.go:161-190 | files can be deleted together exactly if they are different ones, all the user's, and none out of date |
| Storage.ReadIs | models/file.go:48-61 | a query by ids reads each file that is named, there and the user's, once, and nothing else |
| Storage.ReadIsDeletable | models/file.go:48-61 | so what is read for a user can always be deleted together |
| Storage.Copy | pkg/filesystem/manage.go:297-324 | copies the first folder and the files chosen, and then charges what was copied; all of it is done exactly if no query fails, and otherwise what was copied falls short of being charged, by exactly the amount told |
| Storage.Make | pkg/filesystem/manage.go:15-103 | each kind of change is made exactly if its queries succeed, and keeps the recorded storage equal to the files' sizes, but for a copy in which a query fails |
| Storage.MakeAll | models/file.go:83-219 | over every run the storage recorded for a user is never more than the user's file sizes together, and less only by what was copied and not charged; without copies or without a failing query it is equal and never below zero |
| Storage.ChargeFailsOnce | pkg/filesystem/manage.go:318-323 | an example: a copy whose charge fails, and after it deletions, leave no file and a storage below zero |
| Storage.UploadChunk | service/explorer/upload.go:191-235 | a chunk is taken exactly if it is in order, of its length and within the capacity left, and the steps after it succeed; the user's storage never passes the limit by it, and stays what the files take except exactly if only the first commit fails and the cut-back succeeds |
| Storage.RecordChunk | pkg/filesystem/hooks.go:47-67 | the same of the two hooks that record the size and set it back |
| Storage.FitsIff | models/user.go:136-142 | bytes fit exactly if there are none, or if what is in use with them is within the limit |
| Storage.AdmittedIff | service/explorer/upload.go:191-235 | for a client that uses the same chunk size, the tests are passed exactly by a chunk with the client's length that begins no later than the bytes there are, and fits |
| Storage.CommitFailsOnce | models/file.go:105-106 | an example, in which the storage ends below zero |
| Storage.ReplaceContent | pkg/filesystem/hooks.go:168-215 | new content is taken exactly if it is no larger or fits as a whole, is stored and is recorded; row and storage follow, and the limit is kept |
| Deletion.RemoveFilesWithSoftLinks | models/file.go:127-159 | keeps the files whose objects no row found by the query shares |
| Deletion.UnsharedIff | models/file.go:127-159 | these are exactly the files whose object no other row refers to |
| Deletion.GroupFileByPolicy | pkg/filesystem/file.go:43-54 | every file is in the group of its policy, and nothing else is |
| Deletion.DeleteGroupedFile | pkg/filesystem/file.go:83-118 | removes the objects that can be removed and reports the others, in any order of policies |
| Deletion.Delete | pkg/filesystem/manage.go:15-80 | objects first, then rows, of the files whose objects were not stuck or of all by force, then folders; every row keeps its object exactly if the rows of files were deleted or no object was removed; rows are deleted exactly if they can be and no query fails, and an error tells when some were kept |
| Deletion.ListAll | pkg/filesystem/manage.go:82-112 | lists the folders with all below them, their files, and the files chosen; it succeeds exactly if no query fails |
| Deletion.DeleteChosen | pkg/filesystem/manage.go:15-112 | a whole deletion: if it succeeds exactly the folders found and the files in them and chosen are gone, and no row lost its object; it succeeds exactly if no query fails, all the files are the user's, none was chosen with its folder and none has to be kept |
| Deletion.DeletableIffOnce | models/file.go:161-190 | which is so exactly if they are the user's and none of them was chosen twice |
| Deletion.BackedIff | pkg/filesystem/manage.go:32-52 | if the rows stay, they keep their objects exactly if none was removed |
| Deletion.RemovedIff | models/file.go:127-159 | an object, which is a policy and a source name, is removed exactly if a chosen file is the only row that refers to it, its policy has a handler and the handler can remove it |
| Deletion.NothingDangles | pkg/filesystem/manage.go:32-52 | no row that is left refers to an object that was removed |
| Deletion.LeftBehindIff | models/file.go:127-159 | a chosen file's object is left with no row exactly if every row that refers to it was chosen, and these are several or its removal failed and was forced |
| Deletion.SharedPairIsLeftBehind | models/file.go:140-156 | an example of that |
| Deletion.ChosenTwice | models/file.go:172-181 | an example of a file chosen twice, whose object is removed while the deletion of its row fails |
| Deletion.ListDeleteDirs | pkg/filesystem/manage.go:82-95 | the folders below the chosen ones without the first that has no parent; no root is among them if the user has one; it succeeds exactly if no query fails |
| Deletion.RootIsKept | pkg/filesystem/manage.go:88-93 | dropping the first root leaves no root exactly if at most one place of the list has one, and nothing else goes |
| Deletion.RootFoundOnce | pkg/filesystem/manage.go:88-93 | a user's only root is found at most once, also when chosen folders lie inside each other |
| Deletion.NoFolderLeftBelow | pkg/filesystem/manage.go:61-66 | no folder of the user is left below a deleted one, unless the limit of the search was met |
| Deletion.NoFileLeftIn | pkg/filesystem/manage.go:61-66 | no file is left in a deleted folder, since folders only go if no file is kept |
| FieldTable.TypeInfo.Conflicts | pkg/webdav/internal/xml/typeinfo.go:279-306 | finds exactly the fields whose path equals the new one's, is a prefix of it or has it as a prefix, in a compatible namespace and the same mode |
| FieldTable.TypeInfo.DropConflicts | pkg/webdav/internal/xml/typeinfo.go:333-337 | the shift from the last place down leaves exactly the fields without conflict, in order |
| FieldTable.TypeInfo.AddFieldInfo | pkg/webdav/internal/xml/typeinfo.go:275-340 | ignored, refused or added by the depth of the conflicting fields; the table stays free of conflicts |
| FieldTable.AddedIs | pkg/webdav/internal/xml/typeinfo.go:275-340 | of that: an error exactly if there are fields in conflict of its depth and none shallower; added, for all in conflict with it, exactly if these are all deeper |
| FieldTable.ConflictIff | pkg/webdav/internal/xml/typeinfo.go:279-306 | two fields for elements are in conflict exactly if they are of one mode and one of them is for an element that the other is concerned with |
| FieldTable.ChooseStep | pkg/webdav/internal/xml/read.go:612-640 | the first field that is for the element or for something inside it, with none before it that is; nothing only if there is none |
| FieldTable.OneFieldPerElement | pkg/webdav/internal/xml/read.go:629-639 | in a table without conflicts no two fields of one mode are concerned with the same element, unless both lie inside it |
| FieldTable.ModesMayMeet | pkg/webdav/internal/xml/typeinfo.go:281-283 | an example of two fields of different modes that are |

## Left out

- LockTable.RunKeepsInvariant: runs in which the generator wraps are not covered; what one Create does then is `MemLS.LockSystem.Create`.
- XmlRoundTrip.EncodedTracks: is for tokens whose names have no colon and declare no reserved prefix; which names survive in general is `XmlRoundTrip.NameComesBackIff`.
- XmlRoundTrip.EncodeAndDecode: comments, processing instructions and directives are not among the tokens the encoder is given.
- XmlPrinter.Encode: writes a sequence of tags and runs of text, whose text is `XmlScanBack.TextOfAll`; the buffered writer below it is not modelled.
- XmlReading.UnmarshalStops: a method that goes on after an inner unmarshalling has failed, or has an element unmarshalled whose start it has not just read, is not covered.
- Storage.MakeAll: changes are made one after another with handles that were just read; concurrent requests are not modelled.
- Storage.UpdateSize: what the database layer does to the handle it is given in a statement that fails is not part of this model.
- Deletion.DeleteChosen: the shares that are deleted with files and folders are left out; between the listing and the deletion no one else changes the rows.
- ChunkStore.UploadDelivers: takes the server's file to be absent or a beginning of the source when the upload starts.
- The mutex of the lock system: calls are taken one at a time, and each confirmation is released at most once.
- `Condition.Not` and `Condition.ETag` in `lookup`: the code does not look at them, nor does the model.
- `path.Clean` and `container/heap` are modelled by what Go's documentation says of them; their sources are not part of this model.
- The decoder's non-strict mode with its automatic closing of elements, entity names a caller adds, `DefaultSpace` in the round trip, and character set readers.
- UTF-8 and the Unicode tables of names: text is code points, and two predicates on characters stand for the tables; what is used of them is `XmlScanBack.TablesOk`.
- Indentation, write errors and the marshalling and unmarshalling of Go structs by reflection.
- A temporary file that cannot be created while sending chunks, the wait between two tries, and deleting a failed upload's session.
- Cancelled uploads, thumbnails, callbacks and the other hooks of an upload.
- Moving folders: it checks only for the destination itself, so a folder can be moved below itself, and the folder tree is then cyclic.
- Upload sessions in the cache, and names that are in use already, which count as a query that fails.
- HTTP handlers, controllers, other storage drivers, aria2, mail, captcha and sessions.
