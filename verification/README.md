# Verification of the dictionary server and its libraries

A Dafny model of a small dictionary service written in C: its byte strings, string search, linked list and
in-place sort, chained hash map, text codecs, event loop, server, client message and word cache, with proofs of what
they do. `dafny verify dfyconfig.toml` checks everything.

Each C file that works by assignment is modelled by classes, arrays and loops. Every method is proved against a
specification over values (a sequence, a map, a set of masks), and the lemmas are about those specifications.

| file | what it models |
|---|---|
| `Bytes.dfy`, `Bits.dfy`, `Sequences.dfy`, `Wrappers.dfy` | signed chars, C strings, masking and rounding to powers of two, distinct elements, concatenation, `Option` |
| `AoStr.dfy` | the growable byte string: length, recorded capacity, growth, slice, append |
| `Borders.dfy`, `Kmp.dfy` | border theory, the prefix table and both matchers |
| `Ring.dfy`, `QuickSort.dfy`, `Matches.dfy` | the circular list on the heap, the sort that moves data round it, and the sort of the scraped list |
| `Chains.dfy`, `HashMap.dfy`, `Iteration.dfy`, `Hash.dfy` | buckets as values, the map with its rehash, the iterator, the default hash |
| `Mime.dfy`, `Escape.dfy`, `Split.dfy`, `Wire.dfy`, `HtmlConcat.dfy` | Q decoding in place, escaping, splitting, the request message, the page of definitions |
| `EventLoop.dfy`, `Server.dfy`, `Dictionary.dfy` | the loop over either kernel interface, client accounting, the cache and its database |

Reference definitions kept apart from the loops: borders and first occurrences for search; permutation, a comparator's
separation and sortedness for the sort; a plain map for the hash map; a base-31 number for the hash; join for split;
two decoders for the codecs; sets of bits for the event loop; the log of clients for the server; first stored rows for
the cache. "Over every run" is an invariant that the constructor establishes and every operation keeps; for the loop
`EventLoop.RunKeeps` also says it of explicit sequences of states.

## Where the code differs from its evident intent

- `serverReadClientMessage` (server.c:107-135) leaves its buffers for some words that the client sends as they are: for 200
  bytes without a colon the terminator goes to index 200 of 200, and for 200 digits after the byte the first loop stops
  on `atoi` reads past the copy. `Wire.MessageParses` says exactly which words, and what every other word gets.
- `aoStrContainsCasePattern` (aostr.c:500) builds the table from the unfolded pattern. The search never reports a wrong
  index, but it can miss one: "aAb" is not found in "aAAb". `Kmp.CaseSearchRightIff` is the exact condition, over the texts a matcher
  can see whole.
- `hmapIteratorGetNext` (hmap.c:323) loses everything after the head of the last bucket: `Iteration.IterationCovers`;
  two additions to a new map are enough, `Iteration.LoseAnEntry`.
- `eloopStateDelete` for epoll (epoll_loop.c:96-106) puts the deleted bits back and then uses ADD, which fails for a
  registered descriptor, so the kernel keeps watching: `EventLoop.EpollDeleteKeepsStepIff`. Closing hides it.
- `eloopAddEvent` (eloop.c:97) raises `max` even for an empty mask: `EventLoop.AddKeepsMaxIff`.
- `aoStrIsMimeEncoded` (aostr.c:576-583) accepts one string in which prefix and suffix overlap: `Mime.MarkedButShort`.
- A string made by `aoStrDup` records a capacity equal to its length, which leaves no room for the NUL after an append of
  256 bytes or more (aostr.c:142-171): `AoString.CatRoom`.
- `listQSort` (list.c:244-246) returns early with its lock held; locks are not part of this model.
- `serverAccept` registers a client for the bits its listener fired with, which under epoll can be both
  (epoll_loop.c:127-128). If such a client then fires for one bit only, the reply leaves it registered but uncounted, and
  its descriptor can never be registered again: `Server.Miscount` reaches that state from start-up,
  `Server.Server.SendClientReply` and `Server.ReplyCountsIff` give the exact condition.
- A word that is fetched is cached under the caller's own buffer (server.c:154), which is a local array of the function
  that answers the request (server.c:170); the reload path copies the key (server.c:237). The cache here copies it on both.
- `serverInit` does not look at whether its listener was registered (server.c:319); if not, the loop does nothing for ever:
  `Server.ServerInit`, `EventLoop.EventLoop.ProcessEvents`.
- The one sort in the program, of the scraped definitions (htmlgrep.c:97), compares the bytes of the string structs and of
  the memory after them, cut to the shorter text's length (htmlgrep.c:81-91). That is no alphabetical order, and it is not
  transitive, but the sort leaves every pair in it, because what the sort needs is weaker: `QuickSort.SortsIff`,
  `Matches.SortMatches`. `aoStrCmp` (aostr.c:243-250), which is cut the same way and called nowhere, would do as well.

## Model

| member | source | states |
|---|---|---|
| Kmp.ComputePrefixTable | aostr.c:402-419 | every entry is the length of the longest proper border of its prefix; the fallback steps taken are those the table itself counts, fewer than the pattern is long |
| Kmp.NextBorder | aostr.c:410-416 | where the fallback stops decides the longest border of the prefix one longer |
| Kmp.CandidateFalls | aostr.c:410-412 | falling back through the entries found so far loses no border that the next byte would extend |
| Kmp.ContainsPatternWithTable | aostr.c:421-451 | with a sound table the result and the number of fallback steps are the scan's; with the exact table the result is the first occurrence in the text up to its first NUL, or -1 exactly when there is none; no more fallback steps than text |
| Kmp.ContainsPattern | aostr.c:454-462 | first occurrence, or -1 exactly when there is none, for every non-empty pattern; the fallback steps of table and search together are counted exactly and are linear in text plus pattern |
| Kmp.ContainsCasePatternWithTable | aostr.c:464-494 | the folding matcher is the same scan over the folded text and pattern, step for step, with whatever sound table it is given |
| Kmp.ContainsCasePattern | aostr.c:496-504 | sound for every pattern; first and complete when no two letters of the pattern differ only in case; fallback steps counted exactly, and linear |
| Kmp.FoldedBorder | aostr.c:464-504 | folding keeps borders, and creates none when no two letters differ only in case |
| Kmp.FoldedTableSound | aostr.c:500-501 | the unfolded table is sound for the folded pattern |
| Kmp.FoldedTableExact | aostr.c:500-501 | it is the folded pattern's own table when no two letters differ only in case |
| Kmp.AgreeingCaseSearch | aostr.c:496-504 | the search is right on a text when the two tables move the matcher alike |
| Kmp.DisagreeingCaseSearch | aostr.c:496-504 | where the tables disagree on a pattern without NULs, builds a text without NULs that contains the pattern and in which the search finds nothing |
| Kmp.NulCaseSearch | aostr.c:477-479 | a pattern with a NUL is in no text the matcher can see, and the search says so |
| Kmp.CaseSearchRightIff | aostr.c:496-504 | the search reports the first folded occurrence in every text without NULs if and only if the pattern has a NUL or both tables move the matcher alike on the pattern's letters |
| Kmp.CaseSearchMisses | aostr.c:496-504 | a concrete miss: "aAb" in "aAAb" |
| Bytes.ToLowerMeans | aostr.c:480-483 | what folding does, letter by letter over the alphabet, and that it leaves every other byte alone |
| Borders.StepExact | aostr.c:437-442 | with the exact table, one step keeps the state equal to the longest match ending there |
| Borders.ScanFindsFirst | aostr.c:432-448 | the scan with the exact table returns the smallest index at which the pattern occurs, or -1 exactly when there is none |
| Borders.ScanSound | aostr.c:476-491 | the scan with any sound table returns only indices at which the pattern occurs |
| Borders.ScanLinear | aostr.c:433-448 | the fallback steps of a whole scan are bounded by what was read and the state it began in; the matchers' counts are these |
| Borders.DisagreementMisses | aostr.c:476-491 | a scan that is driven differently by a worse table misses an occurrence |
| Ring.List.AddHead | list.c:34-56 | the new datum comes first, the old nodes and data follow; the links still form a ring |
| Ring.List.AddTail | list.c:58-78 | the new datum comes last; the old nodes and data keep their places; the links still form a ring |
| Ring.List.RemoveHead | list.c:80-101 | returns and removes the first datum, or nothing from an empty list |
| Ring.List.RemoveTail | list.c:103-124 | returns and removes the last datum, or nothing from an empty list |
| Ring.List.Find | list.c:126-146 | the first datum the callback accepts; nothing exactly when it accepts none |
| Ring.List.AppendListTail | list.c:287-317 | two disjoint rings become one that reads as their concatenation; the other header is left empty |
| Ring.List.Release | list.c:272-285 | hands over every datum once, in order, and leaves the list empty |
| Ring.JoinRings | list.c:300-308 | two runs linked at both seams are one ring: `next` and `prev` are mutual inverses all the way round |
| Ring.WalkPosition | list.c:136-143 | following `next` visits the nodes in order and is back at the start after exactly `len` steps, not before |
| QuickSort.PartitionSplits | list.c:204-225 | whatever the comparator, partitioning rearranges the range around the element that was last: everything before the returned place is at most it, nothing after is |
| QuickSort.Pivot | list.c:204-225 | the heap partition does exactly that to the data between the two nodes, changes no link, and returns the pivot's node |
| QuickSort.EmptyWhenWrapped | list.c:230-232 | for a range less than the whole ring, `low == high->next` holds exactly when the range is empty |
| QuickSort.SortBetween | list.c:227-237 | the recursion on nodes terminates and sorts the positions it is given, with `count` telling the whole ring from an empty range |
| QuickSort.QSort | list.c:239-249 | only data moves; the result is a permutation for every comparator, and is sorted when the comparator separates the data |
| QuickSort.SortedPermutes | list.c:227-237 | the sort is a permutation for every comparator, transitive or not |
| QuickSort.SortingRearranges | list.c:227-237 | sorting a range touches nothing outside it |
| QuickSort.SortingSplits | list.c:227-237 | for every comparator the result is a tree of splits |
| QuickSort.SplitTreeSorted | list.c:227-237 | a tree of splits is sorted when the comparator separates the data |
| QuickSort.TotalPreorderSeparates | list.c:212 | every total preorder separates |
| QuickSort.SortsIff | list.c:227-249 | every list over a set of elements comes out sorted if and only if the comparator separates that set |
| QuickSort.SortedMeans | list.c:212 | sorted: for every two positions the comparator, given the earlier element first, is at most 0 |
| QuickSort.PrefixCompareSeparates | aostr.c:243-250 | a comparison cut to the shorter length separates |
| QuickSort.PrefixCompareNotTransitive | aostr.c:243-250 | it is not transitive |
| QuickSort.PrefixCompareMeans | aostr.c:243-250 | the comparison is 0 when the two agree as far as both go, and otherwise the difference at the first place where they do not |
| QuickSort.PrefixCompareSorts | aostr.c:243-250 | sorting with it would nevertheless leave every pair in order |
| Matches.MemCmpIsPrefix | htmlgrep.c:81-91 | memcmp over the shorter length is the comparison of the two cut to their lengths |
| Matches.SortStringMeans | htmlgrep.c:81-91 | the program's comparator, byte by byte: 0 when the two memories agree up to the shorter length, otherwise the difference at the first place where they do not |
| Matches.SortStringSeparates | htmlgrep.c:81-91 | the program's comparator separates any strings, whatever memory they lie in |
| Matches.SortStringNotTransitive | htmlgrep.c:81-91 | it is not transitive |
| Matches.SortMatches | htmlgrep.c:93-99 | the scraped list is permuted, and of every two of its strings the earlier, cut to its length, does not compare greater than the later, cut to its own |
| ChainedMap.HashMap.constructor | hmap.c:98-131 | an empty map of capacity 65536 that satisfies the invariant |
| ChainedMap.HashMap.Fixed | hmap.c:133-137 | an empty map whose capacity is the least power of two that is at least what was asked |
| ChainedMap.HashMap.Load | hmap.c:139-202 | every reachable map: a power-of-two capacity, size equal to the total chain length, at most 67 entries for 100 buckets, all rehashes together at most two moves per successful add, and room to grow for 719,407,022 adds |
| ChainedMap.HashMap.GrowsWhen | hmap.c:7-8 | a map that is not fixed grows exactly when one entry more would be more than 67 for 100 buckets |
| ChainedMap.HashMap.BucketOf | hmap.c:192 | in every reachable map an entry is in the bucket of its key's hash modulo the capacity and in no other, and is the entry of its key |
| ChainedMap.ThresholdMeans | hmap.c:115 | the threshold is the greatest load of at most 67 in 100 |
| ChainedMap.HashMap.Expand | hmap.c:139-181 | doubles the array; every key keeps its entry, no entry is made or lost; each entry is in the bucket of its hash |
| ChainedMap.ScanBuckets | hmap.c:157-172 | the scan that stops when its counter of entries reaches zero has moved every entry, wherever it stopped |
| ChainedMap.MoveChain | hmap.c:163-171 | one bucket's chain moves whole, and the buckets still to come stay linked |
| ChainedMap.AllCovered | hmap.c:157 | when as many entries have moved as there are, all of them have |
| ChainedMap.HashMap.GetIndex | hmap.c:183-202 | may grow, never changes the map; found, or the bucket of the key in the grown map |
| ChainedMap.HashMap.GetEntry | hmap.c:204-220 | the key's entry, or nothing exactly when the key is absent |
| ChainedMap.HashMap.Contains | hmap.c:233-240 | tells membership; the rehash inside it does not change the map |
| ChainedMap.HashMap.Add | hmap.c:242-265 | a new key is added; an existing key keeps its value; nothing else changes |
| ChainedMap.HashMap.Delete | hmap.c:267-294 | removes exactly that key and hands over its entry; nothing else changes |
| ChainedMap.Unlink | hmap.c:278-291 | the entry is cut out of its chain, head or not; every other link stays |
| ChainedMap.AmortisedStep | hmap.c:149-151 | each doubling keeps the account of moves and leaves room below the new threshold |
| Chains.PrependIndexed | hmap.c:257-262 | an entry put in front of the bucket of its hash keeps the index right |
| Chains.RemoveIndexed | hmap.c:278-286 | dropping one entry keeps it right |
| Bits.MaskIsRemainder | hmap.c:192 | masking with one less than a power of two is the remainder, so every bucket is in range and can be reached |
| Bits.RoundUp32 | hmap.c:39-50 | the least power of two that is at least the number, in 32-bit arithmetic, and 0 when there is none or for 0 |
| Hash.HashString | hmap.c:16-28 | the value of the signed chars as digits in base 31, modulo 2^32 |
| Hash.PolynomialConcat | hmap.c:22-25 | the number of a concatenation from the numbers of its parts |
| Hash.PolynomialSingle | hmap.c:20-24 | the number of one character is its signed value, which with the concatenation determines the number of every string |
| Bytes.SignedMeans | hmap.c:20-24 | the signed value of a byte is the one in -128..127 that is the same modulo 256, and converting it to 32 bits keeps it modulo 2^32 |
| Iteration.HashMapIterator.GetNext | hmap.c:318-341 | returns the entries of buckets in order, chain by chain, but only the head of the last; HM_ERR exactly when these are all returned |
| Iteration.OrderDistinct | hmap.c:318-341 | no entry is returned twice |
| Iteration.CoversAllIff | hmap.c:323 | an iteration covers every entry if and only if the last chain has at most one |
| Iteration.IterationCovers | hmap.c:318-341 | of any reachable map: entries of the map, none twice, and all of them if and only if the last bucket holds at most one |
| Iteration.LoseAnEntry | hmap.c:318-341 | a map reached by two additions, an entry of which the iteration never returns |
| Iteration.TwoInLast | hmap.c:192 | hashes with all bits set select the last bucket, whatever the capacity |
| AoString.AoStr.PutChar | aostr.c:189-196 | appends one byte and a NUL, and leaves the length below the recorded capacity |
| AoString.AoStr.CatLen | aostr.c:309-316 | appends the bytes and a NUL, and leaves the length below the recorded capacity |
| AoString.AoStr.ExtendBufferIfNeeded | aostr.c:162-171 | keeps the contents; grows by the request or 256, cut to 32 bits |
| AoString.AoStr.Slice | aostr.c:261-267 | moves the bytes, with overlap, and terminates them |
| AoString.CatRoom | aostr.c:142-171 | growth leaves room for the bytes and a NUL exactly when there was a spare byte or the append is short |
| Mime.DecodeInto | aostr.c:598-622 | with output and input the same buffer or not, the output is the decoder of the original bytes; it never passes the read index and nothing beyond the input changes |
| Mime.Lookahead | aostr.c:605-609 | looking two bytes ahead in a terminated buffer sees a triple exactly when the string has one |
| Mime.HexToIntMeans | aostr.c:585-596 | the value of every digit, one by one in both cases, and -1 for every other byte |
| Mime.DecodeTriple | aostr.c:605-613 | an equals sign and the h-th and l-th characters of "0123456789ABCDEF" or "0123456789abcdef" decode to the byte 16 h + l |
| Mime.DecodeOther | aostr.c:614-616 | anything else, an equals sign without two digits after it included, stands for itself |
| Mime.DecodeInplace | aostr.c:624-633 | the string becomes the decoded form of what was between prefix and suffix |
| Mime.IsMimeEncoded | aostr.c:575-583 | exactly the strings with the prefix in front and the suffix behind |
| Mime.MarkedButShort | aostr.c:581-582 | the only marked string too short to hold both is "=?utf-8?Q?=" |
| Mime.DecodeEncoded | aostr.c:598-622 | decoding undoes every encoder that writes '=', NUL and any bytes it likes as triples of digits from those two tables |
| Mime.RoundTrip | aostr.c:624-633 | any bytes, zeros included, survive being encoded and decoded in place |
| Escape.EscapeString | aostr.c:352-400 | the output is the codes of the bytes in order, with capacity to spare throughout |
| Escape.CodeForms | aostr.c:363-395 | the four kinds of code: itself, a letter, four hex digits for control bytes, eight beginning ffffff from 128 up |
| Escape.CodeMeans | aostr.c:363-395 | the code of every byte, character by character |
| Escape.EscapedConcat | aostr.c:362-398 | the output for a concatenation is the outputs one after the other, and for one byte its code |
| Escape.ReadCode | aostr.c:363-395 | the codes are prefix-free: each is read back whatever follows it |
| Escape.UnescapedEscaped | aostr.c:352-400 | escaping has a left inverse on all strings without NULs |
| Escape.EscapedIsClean | aostr.c:352-400 | the output has no byte below 32, no byte from 128 up and no unescaped quote |
| Split.SplitText | aostr.c:517-568 | the slots hold the pieces of the string without one leading delimiter, and `count` is their number; growth always leaves a free slot |
| Split.JoinPieces | aostr.c:541-566 | joining the pieces gives the string back |
| Split.SplitKeeps | aostr.c:528-566 | nothing is lost: the pieces joined are the string, but for exactly one delimiter at the very front |
| Split.PieceAt | aostr.c:541-566 | the k-th piece is the stretch without delimiters, as long as can be, that has k delimiters before it |
| Split.PiecesAreFree | aostr.c:541-566 | no piece contains the delimiter, and there is one more piece than delimiters |
| Split.PiecesUnique | aostr.c:541-566 | there is no other way to split |
| Split.SplitUndoesJoinIff | aostr.c:528-566 | splitting undoes a join of delimiter-free pieces if and only if there is one piece or the first is not empty |
| Wire.PrintMessage | client.c:30-32 | the buffer holds the word, a colon and its length, cut to the message size |
| Wire.ReadClientMessage | server.c:107-135 | for every message, even one that fills its buffer without a NUL: the behaviour is defined exactly when digits and number fit the parser's buffers; then it accepts and rejects what the message's meaning says, and returns the word cut to the length sent |
| Wire.ParseMeans | server.c:107-135 | every message that goes on past its word, be it from this client or not: a non-digit among the next 200 bytes rejects it; 200 digits or a number from 200 up are undefined; otherwise the word, zero-padded, is cut to the number |
| Wire.ParseWithoutColon | server.c:118-119 | every other message, of at most 200 bytes and without a colon, is rejected |
| Wire.DecimalValue | client.c:31 | the number the server reads from the digits the client prints is the number printed |
| Wire.DecimalMeans | client.c:31 | the digits are printed most significant first, each the character with its place in "0123456789" |
| Wire.MessageParses | server.c:107-135 | for every word: the parser stays in its buffers if and only if the word does not overrun them; then exactly the words under 200 bytes without a colon are accepted, each as itself |
| Wire.LongestWord | server.c:129-130 | a word of 200 bytes without a colon sends the terminator to index 200 |
| Wire.TwoHundredLetters | server.c:129-130 | such a word: two hundred letters |
| Wire.WindowInWord | server.c:123-127 | when 200 bytes of word follow the byte the first loop stops on, they alone decide |
| Wire.ColonInWindow | server.c:123-125 | when fewer follow, the message's own colon is among the digits and it is rejected |
| Wire.MessageFits | client.c:31 | the message of every word that can be accepted fits the server's buffer |
| Wire.Exchange | client.c:30-37 | both ends together, for every word that fits the client's buffer: undefined exactly for overruns, otherwise the word and its length or a rejection |
| HtmlConcat.ConcatList | htmlgrep.c:101-121 | one walk by count ends every string of the ring with two newlines and returns their concatenation, or nothing for an empty list |
| HtmlConcat.PageMeans | htmlgrep.c:110-118 | the page is each text and the two characters "\n\n", one after the other |
| HtmlConcat.PageKeepsTexts | htmlgrep.c:110-118 | splitting the page at newlines gives the texts back in order, if none contains one |
| HtmlConcat.LinesInjective | htmlgrep.c:110-118 | pages with the same lines come from the same texts |
| EventLoop.EventLoop.AddEvent | eloop.c:79-101 | a refused addition changes no registration; an accepted one adds the bits and sets exactly the callbacks they name; the status is what the kernel answered to the calls made, in order; every outcome is a step of the loop |
| EventLoop.EventLoop.DeleteEvent | eloop.c:103-123 | removes the bits; the kernel is asked for exactly what the interface asks; `max` becomes the highest descriptor left below it when it lost its last bit, and otherwise stays, whatever it was |
| EventLoop.EventLoop.FindMax | eloop.c:116-122 | the scan down finds the highest registered descriptor below, or -1 |
| EventLoop.EventLoop.KqueueStateAdd | kevent_loop.c:63-81 | the kernel gains both filters, or on failure none, or the read filter alone when both were wanted |
| EventLoop.EventLoop.KqueueStateDelete | kevent_loop.c:83-97 | the kernel loses exactly the filters named |
| EventLoop.EventLoop.EpollStateAdd | epoll_loop.c:70-87 | the kernel watches old and new bits, or on failure what it did before; adding what the kernel has fails, and so does modifying what it does not have |
| EventLoop.EventLoop.EpollStateDelete | epoll_loop.c:89-107 | a registered descriptor stays watched as it was, except that one whose mask is exactly EVT_DELETE may be dropped |
| EventLoop.AddKeepsMaxIff | eloop.c:91-98 | an addition keeps `max` right if and only if it registers something or the descriptor is not beyond `max` |
| EventLoop.DropKeepsMax | eloop.c:115-122 | a `max` that was right before a deletion is right after it |
| EventLoop.AddKeeps | eloop.c:88-91 | an addition keeps the kernel at or above the masks, and equal to them unless kqueue failed halfway |
| EventLoop.DeleteKeeps | eloop.c:114-115 | a deletion keeps the kernel at or above the masks, and under kqueue equal to them |
| EventLoop.EpollDeleteKeepsStepIff | epoll_loop.c:89-107 | after an epoll deletion masks and kernel, equal before it, are equal if and only if it took out no watched bit |
| EventLoop.StrandedStays | epoll_loop.c:77-85 | under epoll a descriptor that was closed with bits left in the loop is refused every time, over any run that deletes nothing on it |
| EventLoop.StepKeeps | eloop.c:79-123 | every addition that registers something and every deletion keeps the loop invariant |
| EventLoop.RunKeeps | eloop.c:79-123 | after every run from a fresh loop `max` is right, the kernel watches at least the masks, and under kqueue exactly them if no addition failed halfway |
| EventLoop.InvariantMeans | eloop.c:79-123 | that invariant descriptor by descriptor: nobody registered beyond `max`, `max` itself registered, and the kernel watches for reading and for writing wherever the loop has the bit; under kqueue, without half-failed additions, only there |
| EventLoop.EventLoop.ProcessEvents | eloop.c:125-159 | one pass, with callbacks that add, delete and close as they like: each event is called back for exactly what is due when its turn comes, and again for writing exactly when the read callback left that due and the callbacks different; an empty loop does nothing |
| EventLoop.EventLoop.ProcessOne | eloop.c:137-155 | the turn of one event: whatever is registered and fired when it begins is called back, reading before writing, and a due write after a read exactly if the two callbacks then differ; without a callback nothing changes |
| EventLoop.CallsWereDue | eloop.c:142-153 | every callback of a pass is for a bit that was in the descriptor's mask at that moment and among the bits that fired, is the callback registered for that bit, and gets its event's descriptor and fired mask |
| EventLoop.PassMeans | eloop.c:137-155 | each event of a pass in terms of bits: no callback exactly when the mask registered and the mask fired share neither reading nor writing; the first is for reading exactly when they share that; a second exactly when the registration the read callback left shares writing with what fired and its callbacks differ |
| EventLoop.EqualCallbacksRunOnce | eloop.c:148-149 | an event whose read and write callbacks are equal is called back at most once |
| Server.Server.Accept | server.c:206-221 | for whatever bits a poll can report for the listener, one attempt, logged, and a registration asked for exactly if it returned a descriptor the loop has room for: a client registered for exactly those bits, on a descriptor that was not in use, counted and logged; or, if refused, nothing but an open descriptor |
| Server.Server.SendClientReply | server.c:164-204 | one client fewer, its bits taken out, its descriptor unwatched and closed, everything else as it was; the accounting holds if and only if the client had fired for all it was registered for |
| Server.Server.ProcessEvents | eloop.c:125-159 | a pass in which each client that fires has, when its turn comes, fired for all it is registered for keeps the accounting; as many attempts to accept as the listener has fired for reading, in order; every client that fired and was live is answered, and nobody who did not fire |
| Server.PassageMeans | eloop.c:137-155 | event by event: an attempt exactly when the listener has fired for reading; an answer exactly when a client is registered for reading and has fired for it; what each changes; and nothing otherwise |
| Server.AttemptsInPass | server.c:206-221 | the attempts of a whole pass are as many as its listener events for reading |
| Server.EndedWasAnswered | server.c:199-204 | a client that is no longer live has been answered |
| Server.AnsweredOnce | server.c:164-221 | between two answers on one descriptor a new client was accepted on it |
| Server.ClientsUpdate | server.c:201-220 | how one registration changes the number of registered clients |
| Server.AcceptKeeps | server.c:206-221 | an accepted client keeps count, masks, kernel and log consistent |
| Server.ReplyKeeps | server.c:199-204 | a reply to all of a client's bits keeps them consistent under either kernel interface, closing included |
| Server.ReplyBreaks | server.c:199-204 | a reply that leaves a bit never does |
| Server.ReadersCover | server.c:164-221 | while no client is registered for writing and the listener fires for reading only, as always under kqueue, every client fires for all it has |
| Server.CoveredClient | eloop.c:142-153 | in such a pass a due client is due for reading, and the reply leaves it no bit |
| Server.AcceptedInPass | server.c:206-221 | whichever descriptor a client is accepted on, that stays true of the events still to come |
| Server.RefusalKeeps | server.c:217-218 | so does a refused addition, partial or not |
| Server.ReplyCountsIff | server.c:201-202 | a reply leaves the count right if and only if the bits that fired are all the bits the client has |
| Server.Miscount | server.c:201-217 | under epoll, from start-up: a client accepted while its listener fired for both bits and then firing for writing alone is closed, uncounted and still registered, and its descriptor is lost; this fails to happen only if the kernel refuses a registration or there is no descriptor |
| Server.ServerInit | server.c:313-319 | the kernel is asked for the listener; either it is registered, and the server is consistent, new and has no clients, or the addition was refused and the loop is empty |
| Server.Run | server.c:300-334 | start-up and any number of polls in which the listener fires for reading only: one attempt to accept for each time it did, the count is the number of registered clients, and each is answered at most once |
| Dictionary.Dictionary.constructor | server.c:240-269 | start-up leaves each stored word with its first stored definition, and nothing else, in a cache of its own |
| Dictionary.Dictionary.Lookup | server.c:137-162 | a hit returns the cached definition and neither fetches nor inserts; a miss fetches once, for that word, and what was fetched is the answer, the new cache entry and the row of the one insert tried; every stored word stays cached with its first definition |
| Dictionary.Dictionary.Restart | server.c:300-323 | the rebuilt cache is part of the old one, and equal to it when every insert succeeded |
| Dictionary.LookupAll | server.c:137-162 | over any requests: what was cached stays, what is answered is what is cached from then on and was cached before or fetched for that very word, and cached words are answered without fetching |
| Dictionary.Session | server.c:137-162 | start-up, requests, restart and the same requests: stored words get their first definition and the others what was fetched for them, and if every insert succeeded each answer is given again, without fetching if all were answered |
| Dictionary.InitDictionary | server.c:263-268 | row by row, the cache becomes the first definitions of the rows |
| Dictionary.TransferToCache | server.c:223-238 | a row for a word that is already cached changes nothing |
| Dictionary.LoadedIsFirst | server.c:223-269 | loading means the first definition of every stored word, for exactly the stored words |
| Dictionary.StoredAndCached | server.c:154-155 | a freshly cached word keeps cache and database in agreement whether its insert succeeded or failed |

## Left out

- Kmp.ContainsPattern: the empty pattern (aostr.c:405-406 writes before checking) and indices beyond the range of int; table entries and indices are unbounded numbers.
- ChainedMap.HashMap.Add: failed allocations, and growth past a capacity of 2^31 (`CanGrow`), where the 32-bit capacity wraps to 0.
- ChainedMap.HashMap.Fixed: capacities of 0 and above 2^16, for which the array of minimum length (hmap.c:106) is too short.
- Mime.DecodeInplace: strings shorter than prefix and suffix together, for which the size given to the slice wraps below zero.
- AoString.AoStr.CatLen: appends of 2^32 bytes and more, and those `CatRoom` says have no room for the NUL.
- Escape.EscapeString: the formatted append of `u%04x` (aostr.c:393) is the append of its text.
- Split.SplitText: the byte sizes of its slot array (aostr.c:538 and 544); slots are array elements. The delimiter is not NUL.
- Wire.PrintMessage: words so long that the terminator after the message falls outside the client's buffer.
- Wire.ReadClientMessage: what an overrun does; the model stops there. A number too large for int, which is undefined as well, is among them.
- Wire.Exchange: partial reads and writes on the socket; the message arrives whole.
- HtmlConcat.ConcatList: the list holds separate strings; a string that is in the list twice would be ended twice.
- EventLoop.EventLoop.AddEvent: the `data` pointer, negative descriptors, and mask bits above the low eight, which no caller uses.
- EventLoop.RunKeeps: additions with an empty mask (see `AddKeepsMaxIff`) and descriptors closed by the caller, which the server module adds.
- Server.Server.Accept: listener events that no poll returns: under kqueue the listener fires for reading, under epoll for reading or both bits.
- Server.Server.ProcessEvents: what the poll returns is a parameter. Passes in which a client registered for both bits fires for one, after which the accounting is lost (`Server.Miscount`, `Server.ReplyBreaks`).
- EventLoop.EventLoop.ProcessEvents: the callbacks' own code; a callback is any sequence of additions, deletions and closings. A failed poll is a poll of nothing.
- Server.Server.SendClientReply: what is read from and written to the socket. Every path ends in the same three steps.
- Dictionary.Dictionary.Lookup: a fetched page without definitions (a NULL that is cached and then dereferenced), SQL text with quotes in it and its cut at 65535 bytes. Keys are copied, as on the reload path; on the fetch path the key is the caller's own buffer.
- QuickSort.QSort: the lock, which the early return does not release.
- Matches.SortMatches: the memory the comparator reads past a struct is taken not to change during the sort.
- `hmapRelease`, `aoStrUnPutChar`, `aoStrDecodeMimeEncoded`, freeing and failed allocation in general.
- Mutexes and the locked list wrappers, each of which is lock, call, unlock.
- Sockets, HTTP, HTML parsing, the database library, signals and daemonising (inet.c, http.c, dbclient.c, most of htmlgrep.c and server.c).
- Getters, setters, cursor moves, case conversion in place and printing: nothing to prove across functions.
- Platform choices taken as fixed: signed chars, 32-bit int, the C locale for `tolower`, `isdigit` false of negative chars (server.c:124, where the argument is outside what the function is defined for), a client buffer of 8192 bytes.
