# Verified models of the Sere runtime

Dafny models of the algorithmic parts of the C runtime under `runtime/`, with proofs of what those
parts are for. Each model has three layers:

- the loops and mutable structures of the source as methods and classes, on arrays, linked entries
  and fields, proved to compute
- a function of their inputs (or of the state before the call), which follows the source's branches, and
- lemmas that compare this function with something that does not mention it: a grammar's meaning, a
  reachability relation, a map, a FIFO history, a directory walk, a bit string, a numeral's value.

`dafny verify dfyconfig.toml` checks everything.

## The modules

| modules | what they model |
|---|---|
| `RegexSyntax`, `RegexMatcher`, `RegexProofs`, `RegexCompleteness`, `RegexShortcut`, `RegexMeaning`, `RegexCharacters` | the backtracking matcher of `sere_re.c`: patterns as text, as trees, and as relations on positions |
| `MarkSweepGraph`, `MarkSweep` | the mark-sweep collector of `sere_gc.c` on its linked block list, with interior pointers |
| `ObjectGraph`, `ReferenceCounts`, `BoxedOperations` | the reference counts of `sere_mod.c` over lists, dicts and attributes |
| `BoxedKeys`, `ChainedDict` | hash, equality and the bucket chains of the boxed dict of `sere_mod.c` |
| `OrderedTable`, `OrderedDict`, `SlotReuse` | the insertion-ordered open-addressing dict of `sere_rt.c` |
| `ErrorStack`, `ErrorMachine` | pending and handled exceptions of `sere_rt.c` |
| `IntParse`, `IntFormat`, `IntRoundTrip`, `IntTexts`, `FormatSpec` | reading and printing integers and reading format specs in `sere_rt.c` |
| `ReadyQueue`, `TimerHeap`, `ExecutorModel`, `Executor` | the cooperative executor of `sere_async.c` |
| `PathText`, `PathNormalize`, `PathLaws` | lexical path normalisation of `sere_sys.c`, POSIX branch |
| `Base64`, `Base64Loops`, `Base64Texts` | Base64 of `sere_sys.c` against section 4 of RFC 4648 |
| `StringParts`, `StringLoops`, `StringLaws` | count, split, join and replace of `sere_sys.c` |
| `RandomRange` | the generator and unbiased ranges of `sere_sys.c` |
| `RequestReceive`, `RequestHeaders`, `RequestParse`, `RequestBody`, `RequestLaws` | the bounded HTTP request intake of `sere_wsgi.c` |
| `Wrappers`, `Words`, `Characters` | an option type; bytes, 64-bit bounds, powers of two and division facts; sets of characters |

Large laws are stated through smaller definitions: what a character class is, which block a word
designates, which slot a search returns. `RegexCharacters`, `SlotReuse`, `IntTexts`, `Base64Texts`,
`PathLaws`, `StringLaws`, `RequestLaws` and the lemmas by address, by lookup and by deadline in
`MarkSweepGraph`, `BoxedOperations` and `ExecutorModel` say what these definitions come to, with
characters, addresses and arithmetic written out.

## How the source is read

- `recv`, the clock, the wakers' bodies, the addresses an allocator returns and whether an interim
  answer can be sent are arbitrary inputs: a plan of deliveries, elapsed times, lists of actions,
  parameters. Allocation always succeeds.
- Widths are written out where they matter: 64-bit parsing and hashing, sleep deadlines (whose sum is
  taken to wrap, though C leaves its overflow undefined), the 32-bit Base64 accumulator, the unsigned
  arithmetic of ranges. Sizes and indices are unbounded.
- One collector serves a whole run. The header in front of any payload word can be read, which
  `asBlock` does before it knows that there is one, and a word that carries the block magic lies in a
  real header.
- The executor's constructor initialises the ring; posting before that would divide by a zero capacity.

## Where the source falls short of what one might expect

Each of these is a lemma on a concrete input or an exact condition, next to what holds otherwise.

- Regex groups commit to their first inner match (`RegexMeaning.GroupsCommit`). A pattern in which
  every branch has something of width zero under `+` never matches
  (`RegexMeaning.EmptyUnderPlusFails`, with `^+` as the instance in
  `RegexMeaning.AnchorUnderPlusFails`). Where groups have a fixed width the matcher fails exactly when
  no end is reached with consuming repetitions (`RegexMeaning.MatchConsumes`).
- The leading-`^` shortcut misses matches when a branch is not anchored or the `^` is optional
  (`RegexMeaning.ShortcutMissesBranch`, `RegexMeaning.ShortcutMissesQuantified`);
  `RegexMeaning.ShortcutIsRight` says exactly when it misses none.
- A class with a range that ends in a bare backslash can be skipped and read up to different brackets
  (`RegexMeaning.RangeToBackslashDisagrees`), though it need not
  (`RegexMeaning.RangeToBackslashCanAgree`); `RegexMeaning.ClassLoopsAgree` says exactly when.
- Setting a new key in an ordered dict whose other slots are all tombstones writes nothing
  (`OrderedTable.SetCanLoseAnEntry`); `OrderedTable.SetRefines` says exactly when.
- Setting and deleting one key again and again fills the last empty slot when that slot comes first on
  the key's path; the second set is then lost (`SlotReuse.SecondSetIsLost`). In every other case
  tombstones are reused and no set of the key is ever lost (`SlotReuse.NextSetIsStored` has the exact
  condition).
- Removing a self-attribute leaks its reference in every graph (`BoxedOperations.SelfAttrLeaks`);
  `BoxedOperations.DelAttr` and `BoxedOperations.ClearAttrs` keep the counts exact if and only if no
  removed attribute is one, and say what leaks otherwise.
- Parsing stores the minimum of every signed width as the 64-bit minimum
  (`IntParse.NarrowMinimumIsWidened`, exact in `IntParse.SignedParseIsExact`).
- Leading spaces of a format spec are skipped first, so a space fill is lost and so is a space sign
  without an alignment (`FormatSpec.SpaceFillIsLost`, `FormatSpec.SpaceSignIsLost`), and a width of
  zero is taken for the zero flag; `FormatSpec.SpecSurvives` says that nothing else is lost.
- A sleep whose end does not fit 64 bits is due at once: its waker is called early in every run, and
  only then (`ExecutorModel.SleepIsKept`, `ExecutorModel.OverlongSleepEndsAtOnce`).
- The answer to a request whose headers are within the limits and arrive whole depends on how its
  bytes are cut up in three cases, and in no other (`RequestBody.AnswerIgnoresPieces`): its first line is exactly as long as the limit
  (`RequestBody.PiecesDecideAtTheLimit`), a NUL stands in front of its first CRLF and its headers end
  within a chunk beyond the limit (`RequestBody.PiecesDecideBehindNul`), or a NUL comes later and the
  first line ends there.
- A header line that starts with a bare CR ends the reading of the headers. The lines from it on are
  never looked at, so that an accepted block can hold a transfer coding
  (`RequestHeaders.CrLineHidesTheRest`). What an accepted block says is unambiguous exactly when none
  of these lines is a transfer coding, a content length or a host
  (`RequestHeaders.AcceptedIsUnambiguous`).

## Model

| member | source | states |
|---|---|---|
| RegexMatcher.ReMatchSeq | runtime/sere_re.c:249-280 | the five mutually recursive matchers end on every pattern, malformed ones included, stay in bounds, and compute the matching function |
| RegexMatcher.Search | runtime/sere_re.c:282-306 | reports the first start it tries at which the matcher succeeds, with that match's end, or that there is none |
| RegexMatcher.SkipGroupLoop | runtime/sere_re.c:95-118 | the loop that skips a group stops where the skipping function says, for every pattern |
| RegexProofs.ClassAgrees | runtime/sere_re.c:55-146 | on a spelled class, ranges that end in a backslash included, the skip loop ends right after it and the member loop accepts exactly the characters the class stands for |
| RegexProofs.SkipAtomAgrees | runtime/sere_re.c:78-118 | skipping an atom or a group of the grammar lands on the first character after it |
| RegexProofs.TopBarAgrees | runtime/sere_re.c:249-280 | the scan for a top-level bar finds the bar after the first branch, or none in the last branch |
| RegexProofs.AltIsFirst | runtime/sere_re.c:249-280 | at any place inside any pattern, matching a spelled alternation gives the head of its list of successes, greedy first and left alternative first |
| RegexProofs.ItemIsFirst | runtime/sere_re.c:229-247 | the same for one quantified item and what follows it |
| RegexProofs.GreedyIsFirst | runtime/sere_re.c:208-227 | the same for the greedy loop, whose repetitions must consume text |
| RegexMeaning.WellFormedIsBalanced | runtime/sere_re.c:55-118 | a pattern is the text of some tree exactly when its groups balance, no backslash is last, and each class closes with its two loops in step |
| RegexMeaning.LockStepIsAgreement | runtime/sere_re.c:55-146 | the linear check for being in step holds from any position, in step or one ahead, exactly when both loops leave the class at the same place |
| RegexMeaning.ClassLoopsAgree | runtime/sere_re.c:55-146 | a class is skipped to right behind the bracket at which its members end if and only if the check holds |
| RegexMeaning.MatchIsFirstSuccess | runtime/sere_re.c:249-306 | for every well-formed pattern, text and start the matcher returns the first of the ordered successes, or fails when there are none |
| RegexMeaning.MatchIsSound | runtime/sere_re.c:282-306 | whatever end the matcher reports, the text up to it is in the pattern's declarative meaning, with nested groups, alternation and quantifiers, even if every quantified repetition must consume text |
| RegexCompleteness.SuccessesConsume | runtime/sere_re.c:150-280 | with groups of fixed width, the ordered successes are exactly the ends reached when every quantified repetition consumes text |
| RegexMeaning.MatchConsumes | runtime/sere_re.c:150-280 | then the matcher fails at a start if and only if no such end exists there, whatever stands under plus |
| RegexMeaning.SuccessesAreAllEnds | runtime/sere_re.c:150-280 | with groups of fixed width and nothing of width zero under plus, the ordered successes are exactly the declarative ends |
| RegexMeaning.MatchIsComplete | runtime/sere_re.c:150-280 | then the matcher fails at a start if and only if no end exists there |
| RegexMeaning.SearchDecides | runtime/sere_re.c:282-306 | then the search fails if and only if no start it tries has a declarative match |
| RegexMeaning.ShortcutIsRight | runtime/sere_re.c:289-301 | with groups of fixed width, the shortcut for a leading caret loses no match in any text if and only if no branch can match behind the start, which the tree alone decides |
| RegexMeaning.ShortcutIsSafe | runtime/sere_re.c:289-301 | for every pattern, when no branch can match behind the start, trying only the first start loses nothing |
| RegexShortcut.LooseIsTaken | runtime/sere_re.c:289-301 | a branch that the tree allows to match behind the start does so in some text |
| RegexMeaning.GroupsCommit | runtime/sere_re.c:165-174 | a pattern, text and end that belong together but that the matcher misses, because a group keeps its first inner match |
| RegexMeaning.EmptyUnderPlusFails | runtime/sere_re.c:208-227 | when every branch has something of width zero under plus, be it inside a required group, the matcher fails on every text and at every start |
| RegexMeaning.AnchorUnderPlusFails | runtime/sere_re.c:208-227 | a caret under plus misses the empty match its declarative meaning has at the start of every text |
| RegexMeaning.ShortcutMissesBranch | runtime/sere_re.c:289-301 | the shortcut misses the match of an unanchored second branch |
| RegexMeaning.ShortcutMissesQuantified | runtime/sere_re.c:289-301 | the shortcut misses a match when the leading caret is optional |
| RegexMeaning.RangeToBackslashDisagrees | runtime/sere_re.c:55-146 | a class on which the skip loop and the member loop disagree about the closing bracket |
| RegexMeaning.RangeToBackslashCanAgree | runtime/sere_re.c:55-146 | a class with such a range that is well formed, and the tree it spells |
| RegexCharacters.EscapeMatches | runtime/sere_re.c:17-53 | a backslash and a letter match at a place exactly one character, and only one of those the letter names: digits, word characters and blanks written out, their complements, line feed, tab, or the letter itself |
| RegexCharacters.EscapeInClassMatches | runtime/sere_re.c:120-146 | the same inside a class, and the complement when the class is negated |
| RegexCharacters.RangeInClassMatches | runtime/sere_re.c:120-146 | a class of a range and a character matches one character between the bounds or that one, or any other when negated |
| RegexCharacters.OneCharacterMatches | runtime/sere_re.c:150-197 | an ordinary character matches itself, a dot anything but a line feed, a caret and a dollar the empty text at the two ends |
| RegexCharacters.QuantifiedMatches | runtime/sere_re.c:199-247 | star and plus take the whole run of their character and no less, plus fails on an empty run, and a question mark takes one if it can |
| RegexCharacters.BarMatches | runtime/sere_re.c:249-280 | a bar between two characters matches either |
| RegexCharacters.GroupedBarMatches | runtime/sere_re.c:165-174 | so does the same in parentheses |
| RegexCharacters.PlainTextMatches | runtime/sere_re.c:249-280 | a pattern of ordinary characters matches at a place if and only if the text has the pattern there, up to its end |
| MarkSweepGraph.LiveIsLeast | runtime/sere_gc.c:194-226 | the reachable blocks are the least set that holds the targets of the roots and is closed under payload words |
| MarkSweepGraph.HitIsUnique | runtime/sere_gc.c:153-173 | an exact or interior pointer designates at most one block |
| MarkSweepGraph.RootedIsLive | runtime/sere_gc.c:153-226 | a block is reachable when a root is its payload address or any address inside its payload |
| MarkSweepGraph.PointedIsLive | runtime/sere_gc.c:153-226 | so it is when such a word stands in the payload of a reachable block |
| MarkSweepGraph.LiveIsPointed | runtime/sere_gc.c:153-226 | and each reachable block has such a word, in a root or a reachable payload |
| MarkSweepGraph.LiveIsLeastByAddress | runtime/sere_gc.c:153-226 | the reachable blocks are the least set closed under these words, with addresses and sizes written out |
| MarkSweepGraph.CollectingAgainFreesNothing | runtime/sere_gc.c:194-226 | after a collection every survivor is still reachable, so collecting again frees nothing |
| MarkSweepGraph.AllocationKeepsLive | runtime/sere_gc.c:83-97 | allocating a block does not make any reachable block unreachable |
| MarkSweep.Collector.MarkAll | runtime/sere_gc.c:194-226 | the nested marking loops end with exactly the reachable blocks marked |
| MarkSweep.Collector.MarkPayload | runtime/sere_gc.c:175-192 | scanning one payload marks the targets of its words and reports whether anything new was marked |
| MarkSweep.Collector.Collect | runtime/sere_gc.c:194-226 | with a root, frees exactly the unreachable blocks: whatever a root or a survivor points to or into survives, and each survivor is pointed to or into by one; keeps their order and contents, and the statistics stay the sum and count of the blocks; without roots it changes nothing |
| MarkSweep.Collector.Alloc | runtime/sere_gc.c:83-97 | links a zeroed block in front and keeps list, index and statistics consistent |
| MarkSweep.Collector.Free | runtime/sere_gc.c:99-122 | removes exactly the block with that payload address, in place and in order, and ignores any other pointer |
| MarkSweep.Collector.RemoveRoot | runtime/sere_gc.c:424-432 | removes one occurrence of the root and no other |
| ObjectGraph.AliveIffReachable | runtime/sere_mod.c:2037-2093 | with right counts and no cycle, the objects alive are exactly those reachable from the caller's handles |
| ObjectGraph.EdgeIs | runtime/sere_mod.c:2043-2093 | an object refers to exactly the values of its attributes, its list items and the keys and values of its dict entries |
| ObjectGraph.CountIs | runtime/sere_mod.c:2037-2042 | each slot that names an object counts once, so that two slots with the same object count twice |
| ObjectGraph.ReleaseIsExact | runtime/sere_mod.c:2043-2093 | a release cascade frees exactly the objects the remaining handles no longer reach in the graph as it was |
| ReferenceCounts.Store.DecRef | runtime/sere_mod.c:2043-2093 | the recursive release keeps every count equal to handles plus slots, ends, and leaves survivors' contents alone |
| ReferenceCounts.Store.Exchange | runtime/sere_mod.c:781-890 | replacing what a living object refers to, taking new references before dropping old ones, keeps every count exact and the object alive; the caller must reach it, without needing a handle of its own, only if references are dropped |
| ReferenceCounts.Store.Replace | runtime/sere_mod.c:1421-1466 | the same where some references are dropped without a release: the counts are then exact with those leaked references added to the caller's |
| BoxedOperations.DropHandle | runtime/sere_mod.c:2043-2093 | giving up a handle frees an object if and only if the remaining handles do not reach it |
| BoxedOperations.NothingLeaks | runtime/sere_mod.c:2037-2093 | once the caller holds nothing, an acyclic graph is completely freed |
| BoxedOperations.ListAppend | runtime/sere_mod.c:781-788 | the list gains the item at its end and every count stays exact |
| BoxedOperations.ListSet | runtime/sere_mod.c:821-841 | an index in range, negative ones counted from the end, is overwritten; any other is refused; counts stay exact |
| BoxedOperations.ListInsert | runtime/sere_mod.c:843-854 | inserts at an index from zero to the length with exact counts and refuses any other |
| BoxedOperations.ListRemoveAt | runtime/sere_mod.c:856-865 | removes the item at a valid index with exact counts |
| BoxedOperations.ListPop | runtime/sere_mod.c:867-882 | hands the item's reference over to the caller |
| BoxedOperations.ListClear | runtime/sere_mod.c:884-890 | releases every item |
| BoxedOperations.SetAttr | runtime/sere_mod.c:1380-1410 | overwrites the first attribute of the name or appends one: the name then has the value, every other name what it had, and the counts stay exact |
| BoxedOperations.DelAttr | runtime/sere_mod.c:1421-1440 | removes the first attribute with the name and leaves what every other name has; the counts stay exact if and only if its value is not the object itself, and otherwise exactly that reference leaks |
| BoxedOperations.ClearAttrs | runtime/sere_mod.c:1442-1457 | removes every attribute; the counts stay exact if and only if none is a self-attribute, and otherwise exactly those references leak |
| BoxedOperations.DictSet | runtime/sere_mod.c:1047-1073 | a lookup of the key then gives the value and a lookup of any key not equal to the stored one gives what it gave; an existing entry keeps its key object, an absent key adds one entry; counts of key and value stay exact and a null key is refused |
| BoxedOperations.DictDel | runtime/sere_mod.c:1084-1103 | removes the first entry with an equal key, so that lookups of keys not equal to it give what they gave, and releases its key and value; false when there is none |
| BoxedOperations.WithEntryStores | runtime/sere_mod.c:1047-1078 | for any key equality, storing makes a lookup of the key give the value and leaves the lookups of other keys alone |
| BoxedOperations.WithAttrSets | runtime/sere_mod.c:1380-1415 | setting an attribute does the same for names, and keeps the order of the attributes |
| BoxedOperations.SelfAttrLeaks | runtime/sere_mod.c:1421-1440 | in every counted graph, dropping a self-attribute without a release breaks the count |
| BoxedOperations.SelfAttrExists | runtime/sere_mod.c:1380-1410 | such a graph: an object that is its own attribute, with a count of two and one handle |
| BoxedKeys.EqualMeansSame | runtime/sere_mod.c:164-191 | two boxed objects are equal exactly when they stand for the same thing, so equality is an equivalence; a NaN equals only itself as an object |
| BoxedKeys.DoublesCompareByValue | runtime/sere_mod.c:164-191 | two boxed doubles are equal exactly when neither is a NaN and the numbers their bits stand for are the same |
| BoxedKeys.OthersCompareByContent | runtime/sere_mod.c:164-191 | integers of any kind are equal by value, texts and byte strings by kind and content, the none values always, and nothing else |
| BoxedKeys.EqualObjectsHashAlike | runtime/sere_mod.c:138-191 | equal objects hash alike, across bool, i32 and i64 and for both zeros |
| BoxedKeys.HashValues | runtime/sere_mod.c:127-136 | the FNV-1a hashes of no bytes, of "a" and of "ab" |
| ChainedDict.Dict.Find | runtime/sere_mod.c:987-998 | walking one chain decides whether the key is anywhere in the dict and finds its entry |
| ChainedDict.Dict.Set | runtime/sere_mod.c:1047-1073 | refines a map update through overwriting, prepending and rehashing; the count is the map's size and chains stay short on average |
| ChainedDict.Dict.Del | runtime/sere_mod.c:1084-1103 | refines map removal by redirecting one link; false exactly when the key was absent |
| ChainedDict.Dict.Get | runtime/sere_mod.c:1075-1078 | returns the map's value, or null when there is none |
| ChainedDict.Dict.Clear | runtime/sere_mod.c:1025-1041 | empties the map and keeps the buckets |
| ChainedDict.Rehash | runtime/sere_mod.c:1001-1023 | moving every entry, in place, leaves each in the bucket of its hash in the wider array, linked, with none lost or doubled |
| ChainedDict.NotInChain | runtime/sere_mod.c:987-998 | a key that is not in the chain of its hash is not in the dict |
| OrderedTable.ProbeIsExact | runtime/sere_rt.c:875-905 | probing finds a key if and only if some live slot holds it, through collisions, tombstones and wrap-around |
| OrderedTable.GetRefines | runtime/sere_rt.c:875-905 | a lookup in the table is a lookup in the insertion-ordered list of entries |
| OrderedTable.SetRefines | runtime/sere_rt.c:837-873 | setting refines an ordered put when the key is present, growth triggers or an empty slot remains, and otherwise changes nothing |
| OrderedTable.DelRefines | runtime/sere_rt.c:907-936 | deleting refines removal from the ordered list and keeps the table well formed |
| OrderedTable.GrowRefines | runtime/sere_rt.c:799-823 | growth keeps the entries and their order, drops the tombstones and leaves room |
| OrderedTable.FewTombsLeaveRoom | runtime/sere_rt.c:837-873 | with tombstones in at most half the slots an empty slot always remains |
| OrderedTable.SetCanLoseAnEntry | runtime/sere_rt.c:837-873 | after eight insertions and deletions of different keys the next new key is silently not stored |
| SlotReuse.NewKeyTakesFirstFree | runtime/sere_rt.c:837-873 | a new key stored without growth goes to the first slot on its probe path that is not live, and to the end of the order |
| SlotReuse.TombstoneIsReused | runtime/sere_rt.c:837-873 | if that slot is a tombstone, the empty slots stay the same and exactly that tombstone is used up |
| SlotReuse.SetLeavesRoom | runtime/sere_rt.c:837-873 | setting leaves an empty slot if and only if the key is present, growth triggers, the key's path meets a tombstone first, or two slots were empty |
| SlotReuse.NextSetIsStored | runtime/sere_rt.c:837-936 | after any number of rounds of setting and deleting one key its next set is stored, for every number of rounds, if and only if that condition held at the start |
| SlotReuse.RoundsLeaveRoom | runtime/sere_rt.c:837-936 | under it an empty slot remains after every round |
| SlotReuse.SecondSetIsLost | runtime/sere_rt.c:837-936 | without it the second set of the key writes nothing |
| SlotReuse.GrowsAtHalf | runtime/sere_rt.c:837-842 | setting doubles the capacity exactly when half of the slots or more are live |
| OrderedTable.LookupPut | runtime/sere_rt.c:837-905 | after a put, the key has the new value and every other key its old one |
| OrderedTable.LookupRemove | runtime/sere_rt.c:875-936 | after a removal, the key is gone and every other key is as before |
| OrderedTable.PutAt | runtime/sere_rt.c:837-873 | an entry that is there keeps its place in the order and gets the value |
| OrderedTable.AssocMissing | runtime/sere_rt.c:837-936 | a new entry comes last in the order, and removing an absent key changes nothing |
| OrderedTable.RemoveAt | runtime/sere_rt.c:907-936 | a removal takes out the entry at its place and keeps the order of the others |
| OrderedDict.Dict.SetKey | runtime/sere_rt.c:837-873 | the probe loop over the arrays, with growth and tombstone reuse, is the table's set and refines the ordered put |
| OrderedDict.Dict.Get | runtime/sere_rt.c:875-905 | the probe loop returns the entry list's value |
| OrderedDict.Dict.DelKey | runtime/sere_rt.c:907-936 | leaves a tombstone, closes the gap in the order array, refines removal |
| OrderedDict.Dict.GrowTable | runtime/sere_rt.c:799-823 | re-inserting in order into doubled arrays is the table's growth |
| OrderedDict.Dict.Clear | runtime/sere_rt.c:1696-1703 | leaves a well-formed table without entries |
| OrderedDict.Dict.KeyList | runtime/sere_rt.c:1721-1734 | lists the keys in insertion order, each once |
| OrderedDict.Copy | runtime/sere_rt.c:1705-1719 | a new dict with the same entries in the same order |
| ErrorStack.FreedForGood | runtime/sere_rt.c:1053-1086 | an error nobody holds is never held again in any run that does not raise it anew |
| ErrorStack.ReraisePicks | runtime/sere_rt.c:1184-1195 | reraise makes the error of the innermost frame that has one pending, or raises a new one when no frame has |
| ErrorStack.BracketRestores | runtime/sere_rt.c:1161-1182 | entering a handler, any nested operations that raise nothing new, and leaving with restore give back the same state |
| ErrorStack.BracketConsumes | runtime/sere_rt.c:1161-1182 | left without restore, the frames are as before and nothing is pending but what a nested reraise made so |
| ErrorStack.HandlersBehave | runtime/sere_rt.c:1053-1182 | a raised error is pending until cleared, a handler that ends consumes its error or gives it back, and one that raises lets the new error through |
| ErrorMachine.Errors.Raise | runtime/sere_rt.c:1067-1086 | the new error is pending with one owner and every other error's count and freeing stay exact |
| ErrorMachine.Errors.Enter | runtime/sere_rt.c:1161-1169 | moves the pending error into a new frame without changing any count |
| ErrorMachine.Errors.Leave | runtime/sere_rt.c:1171-1182 | restores or releases the frame's error; an error is freed exactly when its last owner goes |
| ErrorMachine.Errors.Reraise | runtime/sere_rt.c:1184-1195 | walks the frames, adds an owner before releasing the pending error, counts stay exact |
| ErrorMachine.Errors.Clear | runtime/sere_rt.c:1062-1065 | gives up the pending error's owner |
| IntParse.ParseInt | runtime/sere_rt.c:1246-1327 | the trimming, prefix, digit and range code computes the meaning of the text, stored in its width |
| IntParse.ReadDigits | runtime/sere_rt.c:1283-1307 | accepts exactly the numerals with single inner underscores whose value fits 64 bits, and returns that value |
| IntParse.GuardIsExact | runtime/sere_rt.c:1294-1302 | the division in the overflow guard refuses exactly the steps that leave 64 bits |
| IntParse.SignedParseIsExact | runtime/sere_rt.c:1307-1320 | the stored value is the text's value unless the width is below 64 and the value is its minimum |
| IntParse.NarrowMinimumIsWidened | runtime/sere_rt.c:1312-1312 | the minimum of eight bits is stored as the minimum of 64 |
| IntTexts.GrammarIsParsed | runtime/sere_rt.c:1246-1327 | a text of blanks, sign, base prefix, digits with single underscores and blanks is stored as the number its digits stand for when that fits the width, and refused otherwise |
| IntTexts.ParsedIsGrammar | runtime/sere_rt.c:1246-1327 | every text that is accepted is such a text |
| IntTexts.WidthBounds | runtime/sere_rt.c:1307-1320 | the bounds of 8, 16, 32 and 64 bits in figures |
| IntFormat.FormatInt | runtime/sere_rt.c:414-514 | prefix, digits, grouping, fill and alignment give the formatted text, for every kind that is not a floating-point one |
| IntFormat.FmtIntBody | runtime/sere_rt.c:281-329 | the division loop never overruns its 72 bytes and the 64-bit minimum's magnitude is reached without overflow |
| IntFormat.GroupingIsReversible | runtime/sere_rt.c:315-328 | removing the commas of a grouped number leaves its digits |
| IntFormat.GroupsAreThreeLong | runtime/sere_rt.c:315-328 | counted from the right a comma stands at every fourth place and nowhere else, never in front |
| IntFormat.LoopGroups | runtime/sere_rt.c:315-328 | the front-to-back loop puts the commas where grouping from the right does |
| IntTexts.PrintedIs | runtime/sere_rt.c:414-514 | the text of an integer is its sign, the prefix of its base if asked for, digits without a leading zero that stand for its magnitude, grouped if asked for, and padding on the side the alignment says |
| IntRoundTrip.PrintedIntegersParse | runtime/sere_rt.c:414-514 | every 64-bit integer, printed in decimal without commas or in a prefixed base, with any sign option and zero or space padding of any width, is read back as itself; the floating-point kinds are excluded |
| IntRoundTrip.PositionalReads | runtime/sere_rt.c:281-329 | the digits of a number in any base read as that number |
| IntRoundTrip.CommaIsRefused | runtime/sere_rt.c:1246-1327 | a text with a comma anywhere is no integer |
| IntRoundTrip.GroupedIntegersAreRefused | runtime/sere_rt.c:414-514 | an integer printed with a comma is refused whatever its padding |
| IntFormat.FormattedWidth | runtime/sere_rt.c:474-505 | with a one-byte fill the text is exactly as long as the width asks, or as its content, and centring puts at most one more fill on the right |
| FormatSpec.PrintedSpecParses | runtime/sere_rt.c:210-279 | every set of options, written out, is read back as it was, but for a space fill, a space sign without an alignment, and a width of zero without the zero flag |
| FormatSpec.SpecSurvives | runtime/sere_rt.c:210-279 | written options are read back unchanged if and only if they ask for none of these three |
| FormatSpec.SpaceSignIsLost | runtime/sere_rt.c:217-219 | the spec of a space and a d reads as a plain d |
| FormatSpec.SpaceFillIsLost | runtime/sere_rt.c:217-236 | the spec of a space fill, left alignment, zero flag and width five reads without its fill, and seven prints as 70000 |
| FormatSpec.FullSpecReads | runtime/sere_rt.c:210-279 | a spec with every option in its place, characters written out, reads as exactly these options |
| FormatSpec.AlignAlone | runtime/sere_rt.c:220-236 | each of the four alignment characters alone is an alignment |
| FormatSpec.SignAlone | runtime/sere_rt.c:237-240 | so is a plus or minus a sign |
| FormatSpec.KindAlone | runtime/sere_rt.c:210-279 | and each of the fourteen kinds a kind |
| FormatSpec.FlagsAlone | runtime/sere_rt.c:210-279 | the marks for prefix, zero padding and commas each set their flag, nothing sets none, and a bare point is refused |
| FormatSpec.FillReads | runtime/sere_rt.c:220-236 | a fill of one to four bytes, by its lead byte, in front of an alignment is the fill |
| FormatSpec.ParseSpecText | runtime/sere_rt.c:210-279 | the scanning code reads the options the text stands for, or refuses it |
| ReadyQueue.Queue.Push | runtime/sere_async.c:73-80 | appends to the queue's contents through wrap-around and growth |
| ReadyQueue.Queue.Pop | runtime/sere_async.c:82-90 | removes the oldest element, or reports that there is none |
| ReadyQueue.Queue.Grow | runtime/sere_async.c:60-71 | doubling unrolls the ring without changing the contents |
| TimerHeap.RootIsLeast | runtime/sere_async.c:98-145 | in a heap nothing is due before the root |
| TimerHeap.Timers.Push | runtime/sere_async.c:129-139 | keeps the heap order and adds exactly the new timer |
| TimerHeap.Timers.PopEarliest | runtime/sere_async.c:141-145 | returns a timer with the least deadline, removes exactly it and keeps the heap order |
| TimerHeap.Timers.SiftDown | runtime/sere_async.c:109-127 | repairs a heap whose one misplaced element is too late for its place |
| ExecutorModel.StepConserves | runtime/sere_async.c:177-221 | every step keeps the scheduled wakers equal to those called, ready and waiting on timers |
| ExecutorModel.StepIsTimely | runtime/sere_async.c:177-221 | every step keeps wakers from being ready or called before their deadline |
| ExecutorModel.RunKeepsInv | runtime/sere_async.c:198-221 | over every run both hold at every state and the queueing order only grows |
| ExecutorModel.RunIsFair | runtime/sere_async.c:198-221 | at every state of a run the calls made are a prefix of the queueing order, none was before its 64-bit deadline, and empty structures mean everything scheduled was called |
| ExecutorModel.SleepIsKept | runtime/sere_async.c:185-219 | in every run a call of a waker that slept is no earlier than the sleep's end if and only if that end fits 64 bits |
| ExecutorModel.SleepAdds | runtime/sere_async.c:185-194 | a positive delay adds one timer for now plus the delay, when that fits 64 bits, and any other delay none |
| ExecutorModel.DueIsTaken | runtime/sere_async.c:204-219 | an expiry takes a waiting timer if and only if its deadline is no later than the clock |
| ExecutorModel.SleepEnds | runtime/sere_async.c:185-219 | in every run, after an expiry that reads now plus the delay or later, the waker that slept is ready or was called |
| ExecutorModel.WrappedIsDue | runtime/sere_async.c:204-219 | a timer whose deadline wrapped moves to the queue at the next expiry, whatever the clock reads |
| ExecutorModel.OverlongSleepEndsAtOnce | runtime/sere_async.c:185-219 | such a sleep and a run that calls its waker at the time it went to sleep |
| Executor.Async.PostWaker | runtime/sere_async.c:177-182 | one post step of the model, or nothing for a null function |
| Executor.Async.SleepMs | runtime/sere_async.c:185-194 | one sleep step at the clock reading of the call, immediate for a delay that is not positive; the deadline is the wrapped 64-bit sum of clock and delay |
| Executor.Async.ExpireTimers | runtime/sere_async.c:204-219 | moves exactly the expired timers to the queue in order of deadline |
| Executor.Async.Run | runtime/sere_async.c:198-221 | keeps the invariant against every environment, in which time may pass before every sleep and idle wait, and a return means both structures are empty and everything was called |
| PathText.NormalizeKeepsMeaning | runtime/sere_sys.c:2126-2246 | from every base directory the normal form names the directory the path names |
| PathText.NormalizeIsIdempotent | runtime/sere_sys.c:2126-2246 | normalising twice is normalising once |
| PathText.NormalFormIsCanonical | runtime/sere_sys.c:2126-2246 | paths that name the same directory from every base have the same normal form |
| PathText.NormalFormReads | runtime/sere_sys.c:2126-2246 | in a normal form dots are gone and parent steps survive only as a relative prefix |
| PathLaws.LastName | runtime/sere_sys.c:2126-2246 | a name behind a slash leads one step on from where the path before it leads: nowhere for a dot or nothing, up for two dots, down for any other |
| PathLaws.FirstName | runtime/sere_sys.c:2126-2246 | a single name starts at the base, and behind a slash at the root |
| PathLaws.NormalShape | runtime/sere_sys.c:2126-2246 | a normal form is some parent steps, none under a root, and proper names with single slashes between, or a single dot |
| PathNormalize.Scan | runtime/sere_sys.c:2183-2213 | the scanning loop leaves the reduced component stack, and the guards against a full stack never act |
| PathNormalize.NormalizePath | runtime/sere_sys.c:2126-2246 | the returned buffer holds the normal form and its terminating NUL, within the size computed beforehand |
| Base64.DecodeEncode | runtime/sere_sys.c:1075-1154 | decoding an encoded byte string gives it back |
| Base64.EncodedLength | runtime/sere_sys.c:1075-1102 | four characters for every three bytes begun |
| Base64.DecodingIgnoresOthers | runtime/sere_sys.c:1123-1154 | characters outside the alphabet, wherever inserted, do not change the decoded bytes |
| Base64Texts.EncodesThree | runtime/sere_sys.c:1075-1102 | three bytes give the four letters of section 4 of RFC 4648, by arithmetic, and the rest follows |
| Base64Texts.EncodesTwo | runtime/sere_sys.c:1075-1102 | two last bytes give three letters and a pad |
| Base64Texts.EncodesOne | runtime/sere_sys.c:1075-1102 | one gives two letters and two pads, and none gives nothing |
| Base64Texts.DecodesFour | runtime/sere_sys.c:1104-1154 | four letters give three bytes, and the rest follows |
| Base64Texts.DecodesThree | runtime/sere_sys.c:1104-1154 | three last letters give two bytes |
| Base64Texts.DecodesTwo | runtime/sere_sys.c:1104-1154 | two give one byte, one gives none |
| Base64Texts.OthersArePassedOver | runtime/sere_sys.c:1104-1154 | any character but letters, digits, plus and slash, line ends and pads included, changes nothing wherever it stands |
| Base64Loops.Encode | runtime/sere_sys.c:1075-1102 | the loop over triples writes the encoding by six-bit groups of section 4 of RFC 4648, padding included, and fills its buffer exactly |
| Base64Loops.Decode | runtime/sere_sys.c:1123-1154 | the accumulator loop, wrapping at 32 bits, writes the bytes of the text's bit string |
| Base64Loops.EncodedGroup | runtime/sere_sys.c:1087-1098 | one round of one, two or three bytes is the encoding of those bytes followed by that of the rest |
| Base64Loops.OnlyTwelveBitsMatter | runtime/sere_sys.c:1133-1150 | accumulators that agree in their low twelve bits write the same byte and keep the same pending bits |
| StringParts.JoinUndoesSplit | runtime/sere_sys.c:1217-1261 | joining the parts of a split with its separator gives the text back, the empty separator included |
| StringParts.SplitIsUnique | runtime/sere_sys.c:1217-1261 | a split is the only list of parts that joins to the text with every separator the leftmost one |
| StringParts.PartsHaveNoSeparator | runtime/sere_sys.c:1217-1261 | no part contains the separator |
| StringParts.PartsAreCounted | runtime/sere_sys.c:3685-3699 | the parts are one more than the separators counted |
| StringParts.ReplaceIsJoinOfSplit | runtime/sere_sys.c:1171-1215 | replacing is splitting by the old text and joining with the new |
| StringParts.ReplacedLength | runtime/sere_sys.c:1181-1190 | the length computed by the first pass is the length of the replaced text |
| StringLaws.NothingToSplit | runtime/sere_sys.c:1171-1261 | a text without the separator is its only part, counts none, and replacing leaves it alone |
| StringLaws.SplitAtFirst | runtime/sere_sys.c:1171-1261 | a part, its separator and a rest: the part comes first, one more is counted and one replaced, and the rest is treated likewise |
| StringLaws.NoSeparator | runtime/sere_sys.c:1171-1261 | an empty separator counts and replaces nothing, and an empty text has no parts |
| StringLaws.CharacterComesFirst | runtime/sere_sys.c:1217-1261 | with it a text is cut into characters of one to four bytes, as each lead byte says, one byte where too few follow |
| StringLaws.JoinOfMore | runtime/sere_sys.c:1571-1598 | joining writes the first part, the separator and the join of the others |
| StringLoops.ReplaceText | runtime/sere_sys.c:1171-1215 | the two passes fill the buffer exactly with the replaced text |
| StringLoops.SplitText | runtime/sere_sys.c:1217-1261 | the scanning loops give the split, by UTF-8 lead bytes for the empty separator |
| StringLoops.JoinText | runtime/sere_sys.c:1571-1598 | the two loops fill the buffer exactly with the joined text |
| StringLoops.CountText | runtime/sere_sys.c:3685-3699 | the loop counts the separators that do not overlap, from the left |
| RandomRange.StepIsBijective | runtime/sere_sys.c:773-780 | the three shifts have an inverse on 64-bit states |
| RandomRange.NeverZero | runtime/sere_sys.c:771-780 | a seeded state is never zero after any number of draws |
| RandomRange.OutputIsInjective | runtime/sere_sys.c:779-779 | the output determines the state |
| RandomRange.FirstDraws | runtime/sere_sys.c:769-780 | the first two draws for seed one and the first draw of an unseeded generator, in figures |
| RandomRange.SeedIsOdd | runtime/sere_sys.c:771-771 | seeding makes an even seed the next odd one and keeps any other |
| RandomRange.LimitIsGreatest | runtime/sere_sys.c:799-809 | the limit below which draws are accepted is the greatest multiple of the range's size in 64 bits |
| RandomRange.DrawsTellSeedsApart | runtime/sere_sys.c:771-780 | two generators give the same number at the same draw if and only if their seeds agree but for the lowest bit |
| RandomRange.RangeIsUnbiased | runtime/sere_sys.c:799-809 | every result of a range has the same number of accepted raw values, and exactly those of its remainder |
| RandomRange.MappedIsInRange | runtime/sere_sys.c:799-809 | the unsigned arithmetic of the result never wraps: it is low plus the remainder and in the range |
| RandomRange.Generator.Range | runtime/sere_sys.c:799-809 | returns the image of the first accepted draw and refuses only draws at or above the limit, whenever some draw is accepted |
| RequestReceive.ReceiveIsExact | runtime/sere_wsgi.c:273-293 | for every way the bytes are cut up, a header block within the limits is found at the end of its first CRLFCRLF exactly when the deliveries reach it and none pauses past the line limit where no CRLF is seen |
| RequestReceive.ShortLinesNeverPause | runtime/sere_wsgi.c:292-292 | where a CRLF is seen within the limit no cutting makes a difference |
| RequestReceive.LongLinesAlwaysPause | runtime/sere_wsgi.c:292-292 | where none is seen within a chunk beyond the limit every cutting pauses |
| RequestReceive.ReceiveHeaders | runtime/sere_wsgi.c:273-293 | the windowed search over the buffer computes that outcome and the buffer holds the bytes received |
| RequestLaws.FoundIsFirst | runtime/sere_wsgi.c:273-293 | what is found is the end of the first CRLFCRLF of the bytes |
| RequestLaws.Limits | runtime/sere_wsgi.c:37-37 | the limits of a header block, a line and their number in figures, and the bytes asked for at once (line 276) |
| RequestHeaders.AcceptedLineShape | runtime/sere_wsgi.c:167-195 | an accepted request line is method, target and protocol with single spaces between |
| RequestHeaders.ShapedLineAccepted | runtime/sere_wsgi.c:167-195 | every such line is accepted with its parts where they stand |
| RequestLaws.RequestLineIs | runtime/sere_wsgi.c:79-195 | a request line is accepted if and only if it is a method of token characters, a path or star of visible characters with sound percent escapes, and HTTP/1.0 or HTTP/1.1, with single spaces between |
| RequestLaws.NameIs | runtime/sere_wsgi.c:84-92 | names are compared without regard to ASCII case and to nothing else |
| RequestLaws.ShapedHeader | runtime/sere_wsgi.c:199-235 | a line of a name, a colon, blanks, a printable value and blanks is judged by name and value: a second or unsound length, a coding, a second or empty host, or an unknown expectation is refused |
| RequestLaws.HeaderHasShape | runtime/sere_wsgi.c:199-235 | every line not refused for its form has that shape |
| RequestLaws.NameAndValue | runtime/sere_wsgi.c:199-235 | what the laws of framing call the name and the value of a line are the characters before the colon and the number between the blanks |
| RequestLaws.TooMuch | runtime/sere_wsgi.c:199-205 | a line longer than 8192 or after the hundredth is refused with 431 |
| RequestLaws.BlockIsAccepted | runtime/sere_wsgi.c:167-242 | a block is accepted if and only if its request line and header lines are, HTTP/1.1 has a host, and an interim answer that is due can be sent |
| RequestLaws.HeadIsLine | runtime/sere_wsgi.c:167-195 | the method, target and protocol kept are the request line taken apart at its spaces |
| RequestLaws.BodyIsFramed | runtime/sere_wsgi.c:217-224 | the body of an accepted block is as long as its framing says, or empty |
| RequestHeaders.FramingIsUnambiguous | runtime/sere_wsgi.c:196-236 | the lines the loop goes through are at most a hundred, without transfer coding, with at most one host and one content length, and the body length is that one's decimal value |
| RequestHeaders.VisitedAreAll | runtime/sere_wsgi.c:196-236 | the loop goes through the block's lines from the first on, and through all of them if and only if none starts with a CR |
| RequestHeaders.AcceptedIsUnambiguous | runtime/sere_wsgi.c:196-236 | all the CRLF-delimited lines of an accepted block say its framing and host without ambiguity if and only if none from the first one on that starts with a CR is named Transfer-Encoding, Content-Length or Host |
| RequestHeaders.CrLineHidesTheRest | runtime/sere_wsgi.c:199-236 | an accepted block without a length that has a transfer coding behind a line of a bare CR |
| RequestHeaders.LinesEnd | runtime/sere_wsgi.c:199-236 | the line loop stays inside the block and stops at its end, or at an earlier line that a bare CR starts |
| RequestParse.ParseLine | runtime/sere_wsgi.c:199-235 | a header line is cut by NULs, read, judged, and put back byte for byte |
| RequestParse.ReadLength | runtime/sere_wsgi.c:217-224 | accepts exactly the digit strings whose value fits 63 bits and returns that value |
| RequestParse.ParseBlock | runtime/sere_wsgi.c:167-242 | gives the status or the parsed head of the block, and only the request line's three cuts and the one after the last header stay in the buffer |
| RequestBody.AnswerIgnoresPieces | runtime/sere_wsgi.c:273-293 | all ways of cutting up a request that reach its headers' end get the same answer if and only if its first line is not exactly as long as the limit, or, with a NUL in the headers, no CRLF comes into sight just beyond the limit |
| RequestBody.AnswerIsExact | runtime/sere_wsgi.c:167-293 | deliveries that reach the headers' end get the block's own answer, or 414 if one of them pauses past the line limit where no CRLF is seen |
| RequestBody.PiecesDecideAtTheLimit | runtime/sere_wsgi.c:273-293 | with a first line of exactly the limit's length, two full pieces and one byte get 414, and full pieces get the block's own answer, which is not 414 |
| RequestBody.PiecesDecideBehindNul | runtime/sere_wsgi.c:273-293 | with a NUL in front of the first CRLF and an end of the headers just beyond the limit, two full pieces and one byte get 414 and full pieces get 400 |
| RequestBody.Accept | runtime/sere_wsgi.c:270-299 | accepts exactly the requests the block's parse accepts, with the body starting right after the block |
| RequestBody.Request.Read | runtime/sere_wsgi.c:317-331 | what the reads deliver follows the header block without gap and never exceeds the announced length |

## Left out

- `sere_re_replace`, which calls the search again on slices of the text, and the wrappers that copy a match out.
- RegexMeaning.ShortcutIsRight: exact for groups of fixed width; for others `ShortcutIsSafe` gives one direction.
- RegexMeaning.MatchIsComplete: one condition, groups of fixed width and nothing of width zero under plus; other patterns can be complete by accident of their texts.
- Arena and null collectors, pools, and switching collectors in the middle of a run (`sere_gc_use` does not move blocks).
- Cycles of references, which the counts never free, and finalizers run by a release.
- `sere_list_extend` of a list with itself, which does not end; list slices, reversal and searches.
- BoxedOperations.DictSet: key equality is a parameter and the entries are one list; hashing and the walk of one chain are `BoxedKeys` and `ChainedDict.Dict.Find`.
- ReferenceCounts.Store.DecRef: the object's cell is emptied before its slots are released, where the source frees the memory last; nothing reads the cell in between.
- BoxedOperations.ListClear: the list is emptied before its items are released, where the source releases first; the list survives, so nothing reads it in between.
- ChainedDict.Dict.Clear: the release of keys and values is `BoxedOperations.DictClear`.
- Allocation failure, thread-local storage and null pointers the callers never pass.
- Floating-point formatting and parsing, also of integers under the kinds e, f, g and %.
- FormatSpec.ParseSpecText: the 64-bit accumulator of a width or precision is unbounded, so a number of nineteen digits or more does not overflow before its conversion to 32 bits.
- Executor: `sere_async_run` ends here with the environment's answers; the clock is read at sleeps and after idle waits and moves forward by any amount between.
- FormatSpec.SpecSurvives: kinds that are a character of another option, such as a digit or a sign.
- PathText.NormalFormIsCanonical: bases are directories of proper names; Windows drive and UNC prefixes are not modelled.
- Base64Loops.Decode: the accumulator is an unsigned 32-bit word; by `OnlyTwelveBitsMatter` the sign extension of the source's right shift cannot show.
- StringLoops.JoinText: lists of strings; the branch that joins 32-bit integers is not modelled.
- RandomRange.Generator.Range: that the redraw loop ends, because whether some later draw is accepted depends on the generator's whole orbit.
- The 32-bit `sere_random_range`, which is biased, and the floating-point draws.
- The socket calls around the request intake, the choice of status texts, and response writing.
- HKDF, hexadecimal text, the FNV hash over streams, and the runtime's accessors and conversions, which copy or compare bytes in one pass.
