# EMMS: a verified model

EMMS sniffs mail off the network, matches it against keyword lists, trains and applies a spam filter, and
hands every mail through queues to the threads that log it. This project models the data structures,
codecs and protocols underneath, in the form the C code has (arrays, linked nodes and loops where the
code changes things in place, step systems where threads interleave), and proves what they are for.

| file | what it models |
|---|---|
| `Keywords.dfy` | what keyword search means: longest suffixes, naive search, and when the two agree |
| `Trie.dfy`, `FailureLinks.dfy`, `Automaton.dfy` | the Aho-Corasick automaton of `match.c`: the trie in the table, the breadth-first pass over the ring queue, the scanner |
| `Kmp.dfy` | the border table of `match.c` |
| `PoolSteps.dfy`, `PoolSafety.dfy`, `PoolThreads.dfy`, `PoolLeaks.dfy` | the compare-and-swap free list of `mem.c`, every interleaving; how many threads it bears, and when it loses nodes |
| `Bits.dfy` | the power-of-two arithmetic of `byte.h` and `byte.c` |
| `Mcq.dfy`, `McqSteps.dfy` | the ring of `mcq.c`, by one thread and by a producer and a consumer at once |
| `Acq.dfy` | mutex and condition variable around it, `acq.c` |
| `Mail.dfy`, `Pipeline.dfy` | routing a mail, and every mail's way through `monitor.c` and `log.c` |
| `Base64.dfy`, `Base64Decode.dfy`, `Base64Stream.dfy`, `Base64Reader.dfy` | the codec of `base64.c`, its streaming decoder, and the carry-over buffer of `analy_noweb.c` |
| `Checksum.dfy` | the checksums of `tcpip.c` |
| `UrlEncode.dfy` | the two URL decoders of `urlencode.c` |
| `Chains.dfy`, `Buckets.dfy`, `Mhash.dfy`, `Shash.dfy` | the chained hash tables of `mhash.c` and `shash.c` |
| `Spam.dfy` | training the word table of `spam.c` |
| `CfgLexer.dfy`, `CfgGrammar.dfy`, `CfgParser.dfy`, `CfgRender.dfy`, `CfgSound.dfy` | the configuration lexer, parser and lookup of `cfg.c` |

`dafny verify dfyconfig.toml` checks everything. A C `char` is signed and the machine is little-endian
where the code depends on it.

Where a law the code is meant to keep holds only sometimes, the code is modelled as it is and the exact
condition is proved:

- The failure pass never copies end marks (`trunk/utils/match.c:282-296`), so a keyword inside another can
  be missed. `Keywords.ExactIffCovered` gives the condition on the keyword list that is equivalent to
  agreeing with naive search on every text; `Keywords.InnerKeywordMissed` is a text that is missed.
- The seeding loop does not reduce `tail` (`trunk/utils/match.c:275-281`). `FailureLinks.FirstBytesFit`
  says for which lists the queue is then filled to the brim: those of single bytes, each listed once, such as the
  list of the one keyword "a" (`FailureLinks.OneByteFills`). `FailureLinks.LinkFailures` runs the pass on every list:
  on exactly these it writes one cell behind `queue` and `fail`. It ends for all of them, on these after visiting
  every row twice, the second time taking filled entries for children, and the table is right all the same.
- The pool's author names two assumptions in comments (`trunk/utils/mem.c:134-143`): one allocating thread, and
  a leak when a node comes back while a block is added. `PoolThreads.SafeIffFewThreads`: the free list stays sound in
  every run if and only if at most one thread allocates or none frees; `PoolThreads.TwoAllocatorsBreak` gives the bad
  run for every other pool, and `PoolThreads.SmallestBreak` is the smallest. `PoolLeaks.KeepsAllIffAlone`: no run
  loses a node if and only if the one thread that allocates is alone in the pool, or none allocates, so a pool with
  one allocating and one freeing thread, as `pkgpool` is (`trunk/src/analy_noweb.c:204`, `trunk/src/analy_noweb.c:358`),
  can leak; `PoolLeaks.FreeWhileAdding` is the run, for every such pool.
- After a group with one `=` both decoders test four characters from that `=` on
  (`trunk/utils/base64.c:201`, `trunk/utils/base64.c:277`), three of which lie behind the text. If exactly one of
  these is `=`, `base64_decode` gives a byte too many (`Base64Decode.RoundTripIff`, and `Base64Decode.ExtraByte` for
  a text), while `base64_decode_stream`, which has not stepped on in its output, replaces a byte and counts one it
  never wrote (`Base64Stream.OneCallIff`, `Base64Stream.StaleSign`). `Base64Reader.Reader.FeedAll` is that condition
  for a whole mail; an attachment meets it after an ordinary body (`Base64Reader.AttachmentSpoilt`).
- `base64_decode` tests for room only behind what it has stored (`trunk/utils/base64.c:176-207`), and writes past
  `slen` if and only if the decoded bytes fill it: `Base64Decode.PastIffFull`, `Base64Decode.NulPastRoom`.
- `base64_encode` tests for `slen*3/4` cells where it needs `slen*4/3` and a NUL (`trunk/utils/base64.c:70-71`);
  `Base64.Encode` says exactly when it writes past `clen`, and `Base64.TestTooWeak` is an input.
- `ipv4_chksum` does not fold the carry of an odd last byte (`trunk/utils/tcpip.c:39-42`);
  `Checksum.Ipv4Chksum` says exactly when that matters, `Checksum.LostCarry` for which three bytes.
- `url_decode` reads an escape that runs past its length argument and `url_decode_replace` does not;
  `UrlEncode.AgreeIffComplete`, `UrlEncode.CutEscape`.
- `Shash_new` leaves the cursor on bucket 0 (`trunk/utils/shash.c:71`), so `spam_close`, which does not rewind,
  loses that bucket. `Spam.TrainAndClose` says which words that costs, and `Spam.BucketZeroLost` loses the word "m9".
- A configuration file may stop inside its last blank line, but not inside the line of its last pair, as
  `trunk/config/emms.ini` does, and inside a comment only if a blank line stands between that pair and the
  comment: `CfgRender.ParseOfCutFile`.

The comments and the code disagree in two places, and the model follows the code: `am_addword` returns
the number of keywords, where `trunk/utils/match.h:94` says that a non-zero result is a failure, and
`tuple4_hash` mixes the low address bytes, where the comment at `trunk/utils/mhash.c:153-159` speaks of 16 bits.

## Model

| member | source | states |
|---|---|---|
| Keywords.LongestIsLongest | trunk/utils/match.c:282-296 | The state the automaton should be in is well defined: among the suffixes of the text that begin a keyword it is the longest, and every other one is a suffix of it |
| Keywords.LongestStep | trunk/utils/match.c:310-311 | Remembering only the longest such suffix is enough to find the next one; this is why a table can replace the text |
| Keywords.FailStep | trunk/utils/match.c:284-292 | The failure link of a child, and the transition for a missing child, both follow from the failure link of the parent |
| Keywords.StopIsEnd | trunk/utils/match.c:312-314 | The automaton never stops where no keyword ends |
| Keywords.CoveredAgrees | trunk/utils/match.c:302-318 | On a covered keyword list the automaton's first stop is naive search's first success, on every text |
| Keywords.ExactIffCovered | trunk/utils/match.c:282-318 | Covered, a condition on the keyword list alone, holds if and only if the scan agrees with naive search on every text; even a correct yes or no on every text needs it |
| Keywords.NoInnerIsCovered | trunk/utils/match.c:302-318 | Lists in which no keyword occurs inside another at a non-zero offset are covered |
| Keywords.InnerKeywordMissed | trunk/utils/match.c:302-318 | With the keywords abcd and bc the text abc is reported clean although bc ends in it |
| Trie.Descend | trunk/utils/match.c:253-258 | Following or creating a child keeps the table the trie of the words threaded so far plus the prefix reached, and leaves end marks alone |
| Trie.ThreadWord | trunk/utils/match.c:250-259 | Threading a word adds exactly its prefixes and ends at the row that stands for it |
| Trie.MarkEnd | trunk/utils/match.c:260 | Of equal keywords the last one added owns the end mark |
| Trie.InsertWord | trunk/utils/match.c:249-261 | One keyword more, never more rows than bytes of keywords read so far plus the root |
| Trie.BuildTrie | trunk/utils/match.c:248-261 | Afterwards the rows are exactly the prefixes of the keywords, one row each, linked parent to child, with the last equal keyword in column 256 |
| FailureLinks.ShallowIsTaken | trunk/utils/match.c:282-296 | Every node strictly shallower than the one being processed has left the queue already |
| FailureLinks.FailureRowIsReady | trunk/utils/match.c:284-292 | When a node is processed its failure node's row is complete, and the entry read there is the failure link of the child, or the right transition if there is no child |
| FailureLinks.Enqueue | trunk/utils/match.c:285-288 | Appending to the ring never overwrites a node still waiting, and keeps every waiting node beside its own failure link; the cell behind the ring is written only if tail points there |
| FailureLinks.FillCell | trunk/utils/match.c:283-294 | One column of the processed row becomes a finished transition or enqueues the child, without disturbing rows still to come; in a row processed again every filled entry counts as a child, and the row stays as it is |
| FailureLinks.FillRow | trunk/utils/match.c:283-295 | The processed row is finished and all its children, and nothing else, have joined the queue; a row processed again enters every first byte once more, which brings tail back to 0 |
| FailureLinks.SeedQueue | trunk/utils/match.c:274-281 | The queue starts as the children of the root, each with the root as its failure link |
| FailureLinks.FirstBytesFit | trunk/utils/match.c:275-281 | Seeding needs at most as many cells as there are keyword bytes, and exactly as many if and only if no keyword is longer than one byte and none of them is listed twice |
| FailureLinks.OneByteFills | trunk/utils/match.c:275-281 | The list of one keyword of one byte fills the queue; the same keyword listed twice does not |
| FailureLinks.Turn | trunk/utils/match.c:282-296 | One turn of the outer loop finishes one row more, and the loop goes on for as long as rows are waiting; on lists that fill the queue each row is taken twice and the repeated turns change no entry |
| FailureLinks.TourDone | trunk/utils/match.c:282-296 | When the queue is empty each node but the root was in it once, in order of depth, and every entry is the longest-suffix transition |
| FailureLinks.LinkFailures | trunk/utils/match.c:262-299 | For every keyword list the pass terminates with every entry of every row the longest-suffix transition and every end mark as it was; it writes one cell behind queue and fail if and only if the seeds fill the queue, and then takes every row twice |
| Automaton.StateOfText | trunk/utils/match.c:310-311 | After any text the scanner's row is the node of its longest suffix that begins a keyword |
| Automaton.StateIsLongest | trunk/utils/match.c:310-311 | The same without recursion: a suffix, a node, and no longer suffix is a node |
| Automaton.EndMark | trunk/utils/match.c:312-313 | The end mark met after e bytes is non-zero exactly where the automaton should stop, and names a keyword that ends there |
| Automaton.Scan | trunk/utils/match.c:305-317 | The loop stops at the first stop of the text before the NUL, or there is none |
| Automaton.Matcher.constructor | trunk/utils/match.c:153-173 | No keywords, no chart, room for at least two |
| Automaton.Matcher.Grow | trunk/utils/match.c:199-212 | Doubling moves every keyword to a new array in order and loses none |
| Automaton.Matcher.AddWord | trunk/utils/match.c:192-220 | The keyword joins the end of the list, the count is returned, and a chart already built keeps answering for the old list |
| Automaton.Matcher.Build | trunk/utils/match.c:222-300 | Whatever the keywords, the chart is their complete automaton; -1, with an automaton that matches nothing, if there are none; and whether a cell behind the two arrays was written |
| Automaton.Matcher.Match | trunk/utils/match.c:302-318 | The keyword returned ends where the automaton first stops and is the longest suffix state there; NULL only if it never stops |
| Automaton.Matcher.MatchCovered | trunk/utils/match.c:302-318 | On a covered list: NULL if and only if no keyword occurs, otherwise a keyword that ends where the first occurrence ends |
| Automaton.Matcher.Rebuild | trunk/utils/match.c:320-342 | Everything is forgotten, the chart included |
| Kmp.BorderIsPrefixAndSuffix | trunk/utils/match.c:94-110 | What the table is about: a border of a prefix is a shorter prefix that is also a suffix of it |
| Kmp.BordersNest | trunk/utils/match.c:102-104 | The borders of a border are the shorter borders, which is why following the table misses none |
| Kmp.BorderExtends | trunk/utils/match.c:105-108 | The non-empty borders of a longer prefix are the borders of the shorter one that the next byte extends |
| Kmp.Shrink | trunk/utils/match.c:102-104 | The inner loop ends at the longest border that the next byte extends, or at the empty one |
| Kmp.MkNext | trunk/utils/match.c:94-110 | Each entry is the length of the longest proper border of the prefix it belongs to |
| PoolSafety.LinksMakeChain | trunk/utils/mem.c:82-89 | A freshly carved block is one acyclic list through all its nodes, each linked to the one behind it and the last to none |
| PoolSafety.StepKeeps | trunk/utils/mem.c:109-171 | Any step of any thread keeps the free list acyclic and every node in one place |
| PoolSafety.StepLoses | trunk/utils/mem.c:134-138 | Nodes are lost by the plain store after growing and by nothing else, and then exactly those on the list at that moment |
| PoolSafety.RunIsSafe | trunk/utils/mem.c:109-171 | Over every interleaving of one allocating and any number of freeing threads each node ever carved is free once, or with one caller, or with one freeing thread, or in the block being added, or lost; none is lost if and only if every such store found the list empty |
| PoolSafety.PopTakesTheFirst | trunk/utils/mem.c:144-149 | No ABA: when the allocating thread's compare-and-swap succeeds its stale successor is the true one and nobody else has the node |
| PoolSafety.AllocAlone | trunk/utils/mem.c:109-151 | An undisturbed allocation hands out the first free node |
| PoolSafety.FreeAlone | trunk/utils/mem.c:156-171 | An undisturbed release puts the node in front |
| PoolThreads.FewThreadsAreSound | trunk/utils/mem.c:109-171 | With one allocating thread, or with any number and none that frees, the free list is acyclic and free of nodes a caller has, after every run |
| PoolThreads.TwoAllocatorsBreak | trunk/utils/mem.c:142-149 | For every new pool, two or more allocating threads and a freeing one have a run, with blocks of the pool's own size, after which a node that a caller has is first on the free list |
| PoolThreads.SafeIffFewThreads | trunk/utils/mem.c:109-171 | The free list is sound in every interleaving if and only if at most one thread allocates, or none frees |
| PoolThreads.SmallestBreak | trunk/utils/mem.c:142-149 | One block of two nodes, two allocating threads and a freeing one are enough |
| PoolLeaks.LeaksIffRefilled | trunk/utils/mem.c:134-138 | With one allocating thread a run has left a node that can be had no more if and only if one of its publishing stores found a node on the list |
| PoolLeaks.LeakedStays | trunk/utils/mem.c:109-171 | Such a node never comes back |
| PoolLeaks.NeverRefilledIffNoFrees | trunk/utils/mem.c:134-138 | With one allocating thread the list is empty at every publishing store of every run if and only if no thread frees |
| PoolLeaks.FreeWhileAdding | trunk/utils/mem.c:109-171 | In every new pool with an allocating and a freeing thread a run leaks: all nodes are taken, a block is allocated, the first node comes back, the block is published over it |
| PoolLeaks.TwoAddBlocks | trunk/utils/mem.c:109-138 | In every new pool with two allocating threads a run leaks without any release: both add a block and the second store drops the first block |
| PoolLeaks.KeepsAllIffAlone | trunk/utils/mem.c:109-171 | No run loses a node if and only if no thread allocates, or one does and none frees |
| Bits.ModIsRemainder | trunk/utils/byte.h:22 | Masking with a power of two less one is the remainder |
| Bits.PowerTest | trunk/utils/byte.h:19 | For positive numbers the test is zero exactly for powers of two, which is the opposite of its name |
| Bits.RoundUpIsNextMultiple | trunk/utils/byte.h:31-32 | For a power of two the result is the next multiple strictly above |
| Bits.RoundUpPowOfTwo | trunk/utils/byte.c:20-29 | The least power of two strictly above the argument |
| Mcq.ModIsSucc | trunk/utils/mcq.c:76 | Masking wraps the index at a power-of-two length and nowhere else |
| Mcq.Queue.constructor | trunk/utils/mcq.c:40-60 | Empty, with the length asked for if it is a power of two and otherwise the least power above it |
| Mcq.Queue.Enq | trunk/utils/mcq.c:70-87 | Appends, or refuses and changes nothing exactly when one item less than the length is held |
| Mcq.Queue.Deq | trunk/utils/mcq.c:90-106 | Takes the oldest item, or refuses exactly when there is none |
| McqSteps.CellsDiffer | trunk/utils/mcq.c:70-106 | Producer and consumer in the middle of their copies never have the same cell |
| McqSteps.StepKeeps | trunk/utils/mcq.c:70-106 | Copying before publishing the index keeps ring, producer and consumer consistent through every step |
| McqSteps.RefusalsAreExact | trunk/utils/mcq.c:77-78 | A refusal is right at the moment of the check, in both directions |
| McqSteps.RunIsFifo | trunk/utils/mcq.c:70-106 | Over every interleaving what was taken is a prefix of what was put, the rest is in the ring in order, and it is never more than the length less one |
| Acq.StepKeepsDebt | trunk/utils/acq.c:72-93 | No wake-up is lost: whenever the consumer waits beside a non-empty queue some producer has yet to signal |
| Acq.StepKeeps | trunk/utils/acq.c:72-93 | Every step keeps the mutex exclusive and the queue consistent |
| Acq.RunIsFifo | trunk/utils/acq.c:72-93 | Over every interleaving of producers and one consumer the items come out in the order they were accepted |
| Acq.NeverStuck | trunk/utils/acq.c:83-93 | While an item is queued and the consumer wants one, some thread has a step that delivers it or comes closer |
| Acq.CanDeliver | trunk/utils/acq.c:83-93 | From every reachable state such a consumer can be served within a bounded number of steps, so the protocol does not deadlock |
| Mail.Judge | trunk/src/monitor.c:139-194 | The route is the verdict of keyword hit and spam test over all fields, and the keyword is that of the first field with a hit |
| Pipeline.StepKeeps | trunk/src/monitor.c:107-194 | Every step moves a mail from one owner to the next without copying, losing or reordering it |
| Pipeline.RunKeeps | trunk/src/log.c:92-153 | Over every interleaving the accepted mails of each verdict are those recorded, then those in the log thread's hands, its queue, the monitor's hands and the monitor's queue, in that order |
| Pipeline.EveryMailIsSomewhereOnce | trunk/src/monitor.c:123-194 | Each accepted mail is in one of those places as often as it was accepted, so none is released twice |
| Pipeline.PushedIsAccountedFor | trunk/src/monitor.c:107-121 | Over every interleaving each mail given to monitor_push has been accepted, has been given up on or is still being pushed, as often together as it was given |
| Pipeline.DroppedIffFullTwice | trunk/src/monitor.c:114-118 | A mail is given up on exactly by the second try that finds the queue full, and accepted exactly by a try that does not |
| Pipeline.VerdictsAreObeyed | trunk/src/monitor.c:167-193 | A log thread only ever gets mails whose verdict names it, and only mails without hit and spam are released unseen |
| Pipeline.DrainedIsSorted | trunk/src/log.c:105-153 | When all is quiet each log holds exactly the accepted mails of its verdict in arrival order |
| Base64.Alphabet | trunk/utils/base64.c:24-31 | The two tables are inverse to each other and the symbols are neither = nor CR |
| Base64.WritesQuantum | trunk/utils/base64.c:79-118 | The shifts and masks write the four 6-bit groups of RFC 4648 for one, two or three bytes |
| Base64.Encode | trunk/utils/base64.c:60-124 | The encoding of section 4 of RFC 4648 followed by a NUL, nothing else written; 0 for empty input or by the code's own test for room; more than clen cells are written if and only if the test passes and clen does not exceed the length of the encoding |
| Base64.TestTooWeak | trunk/utils/base64.c:70-73 | One byte and a buffer of one cell pass the test, and five cells are written; a buffer with room for the encoding and its NUL is never overrun |
| Base64Decode.EqualSign | trunk/utils/base64.c:243 | How many of the four characters are = |
| Base64Decode.QuantumReturns | trunk/utils/base64.c:160-209 | Decoding a quantum gives its bytes back, padded ones included |
| Base64Decode.DecodedEncoding | trunk/utils/base64.c:139-217 | Decoding an encoding gives the bytes, and one more if the memory behind it completes a second padding |
| Base64Decode.RoundTripIff | trunk/utils/base64.c:139-217 | Decoding undoes encoding if and only if the length is not 2 modulo 3 or not exactly one of the next three characters is =, whatever else lies behind the text |
| Base64Decode.ExtraByte | trunk/utils/base64.c:184-209 | AAA= with another = behind it decodes to three bytes where two were encoded |
| Base64Decode.Decode | trunk/utils/base64.c:139-217 | Stores what the tests for room let through, with a NUL behind it if it fits, and touches no other cell; the number of bytes, or 0 if they do not fit, if there is nothing to do or if the length is no multiple of four. It reads no further than that takes |
| Base64Decode.StoredFits | trunk/utils/base64.c:176-207 | What is stored is the decoded text if that fits, and otherwise a beginning of it that is too long |
| Base64Decode.PastIffFull | trunk/utils/base64.c:176-207 | Cells past slen are written if and only if the text decodes to slen bytes or more |
| Base64Decode.NulPastRoom | trunk/utils/base64.c:180-183 | AAAA decoded into three cells writes a fourth |
| Base64Stream.LinesAreLayout | trunk/utils/base64.c:237-242 | Text wrapped at any whole number of groups is in the form the streaming decoder accepts |
| Base64Stream.OneCall | trunk/utils/base64.c:222-289 | Wherever a wrapped text is cut, one call decodes the part that is complete and the at most three characters it leaves make up the rest with what follows; or, if the memory behind completes a second padding, the first of the last two bytes is replaced, one byte is counted that was not written and the count left is negative |
| Base64Stream.OneCallIff | trunk/utils/base64.c:222-289 | Of any piece of a wrapped text one call is right if and only if what lies behind its = does not complete a second padding |
| Base64Stream.StaleSign | trunk/utils/base64.c:262-287 | YWI=, the bytes 97 and 98, with =AA behind it gives 0, 98 and a byte that was never written, and -4 characters left |
| Base64Reader.StoreStreamEnd | trunk/utils/base64.c:262-287 | Both padding tests write to the same place in the output and both count |
| Base64Reader.DecodeStream | trunk/utils/base64.c:222-289 | The loop computes the function that the theorems about one call are about |
| Base64Reader.Reader.Feed | trunk/src/analy_noweb.c:559-585 | One packet appends what it completes and moves the undecoded characters to the front; with a negative count left it goes no further |
| Base64Reader.OneFeed | trunk/src/analy_noweb.c:559-567 | After one packet, from any buffer, the content still missing is exactly what the carried characters and the later packets encode, unless its = is overrun, and then the count left is negative |
| Base64Reader.Reader.FeedAll | trunk/src/analy_noweb.c:556-585 | Whatever is in the buffer and however a wrapped text is cut into packets that fit behind what is carried, the content is the original bytes if and only if the packet that brings the = does not meet bytes that complete a second padding |
| Base64Reader.CleanRun | trunk/src/analy_noweb.c:460-466 | From a cleared buffer no packet meets such bytes, if six bytes of the buffer stay free |
| Base64Reader.ReadMail | trunk/src/analy_noweb.c:460-585 | Hence a new mail's text is read as it was written, however it is cut |
| Base64Reader.AttachmentSpoilt | trunk/src/analy_noweb.c:605-698 | Behind what the body ABCD leaves in the buffer the attachment ab is overrun |
| Checksum.FoldKeepsOnes | trunk/utils/tcpip.c:34-36 | Folding a carry does not change the ones'-complement value |
| Checksum.SumWords | trunk/utils/tcpip.c:31-38 | The running sum stays below 2^16 and is the ones'-complement sum of the words |
| Checksum.Ipv4Chksum | trunk/utils/tcpip.c:21-43 | The complement of the ones'-complement sum if and only if the count is even or the last byte causes no carry |
| Checksum.LostCarry | trunk/utils/tcpip.c:39-42 | The bytes 255, 255, 1 have the sum 1, and the loop's last addition comes to 2^16 |
| Checksum.FoldAll | trunk/utils/tcpip.c:67-69 | Folding ends and gives the ones'-complement value of any 32-bit sum |
| Checksum.TcpChksum | trunk/utils/tcpip.c:45-71 | The complement of the ones'-complement sum of RFC 793's pseudo header and the segment, odd lengths included, without leaving 32 bits |
| Checksum.CheckedSumsToZero | trunk/src/kill.c:200-203 | A segment whose zero check field is filled with its checksum sums to all ones |
| Checksum.StoreAndCheck | trunk/src/kill.c:181-204 | Computing, storing at offset 16 and computing again gives 0 and changes no other byte |
| Checksum.ByteOrderIndependent | trunk/utils/tcpip.c:45-71 | Summing words in machine order gives the byte-swapped network sum, so storing it as is puts the right bytes on the wire |
| UrlEncode.HexReturns | trunk/utils/urlencode.c:20-30 | Two hexadecimal digits of either case are read back |
| UrlEncode.AgreeIffComplete | trunk/utils/urlencode.c:36-95 | The two decoders agree if and only if no escape is cut off by the length, and the in-place result is always a prefix of the other |
| UrlEncode.CutEscape | trunk/utils/urlencode.c:36-95 | %41 cut after two characters is A to one decoder and nothing to the other |
| UrlEncode.RoundTrip | trunk/utils/urlencode.c:36-95 | Both decoders undo every percent-encoding of section 2.1 of RFC 3986, with + for a space |
| UrlEncode.Decode | trunk/utils/urlencode.c:36-59 | The loop writes the decoded text and a NUL, and reads behind its length only for an escape that is cut off there |
| UrlEncode.InPlaceStep | trunk/utils/urlencode.c:74-92 | What is written never reaches what is still to be read |
| UrlEncode.DecodeReplace | trunk/utils/urlencode.c:66-95 | Decoding in place gives what decoding a copy would, and writes nothing behind its length argument |
| Chains.WithoutMatching | trunk/utils/mhash.c:138-148 | Unlinking the first node of a key removes the newest entry of that key and leaves every other key's entries in order |
| Chains.Find | trunk/utils/mhash.c:91-99 | The search returns the newest node of the key, or nothing only if there is none |
| Chains.Unlink | trunk/utils/mhash.c:138-148 | The pointer surgery unlinks exactly the first node of the key, also at the head of the list, and nothing if there is none |
| Buckets.NodesPopped | trunk/utils/mhash.c:124-150 | A deletion takes one node out of the table and leaves every other in the bucket of its key |
| Mhash.Table.constructor | trunk/utils/mhash.c:49-71 | Every key is unused, and every cell of the pool free |
| Mhash.Table.FindNode | trunk/utils/mhash.c:80-100 | The newest undeleted node of the 4-tuple |
| Mhash.Table.Insert | trunk/utils/mhash.c:102-122 | The new node is now the newest of its key, other keys are unchanged, and its cell is the one the pool got back last |
| Mhash.Table.Del | trunk/utils/mhash.c:124-150 | The newest node of the key, and only that, leaves the table and its cell goes back to the front of the pool; -1 and no change if there is none |
| Mhash.TurnsAlternate | trunk/utils/mhash.c:102-150 | Between two returns of a cell it is handed out, and between two hand-outs it comes back |
| Mhash.Run | trunk/utils/mhash.c:80-150 | Any sequence of inserts, finds and deletes on a new table over a pool that recycles gives the answers of a map from 4-tuples to stacks; every cell is free or holds one node of the table, and no cell comes back twice without being handed out in between |
| Shash.StrHash | trunk/utils/shash.c:208-217 | The loop evaluates the polynomial in 131 modulo 2^64 with signed characters |
| Shash.FlatOnce | trunk/utils/shash.c:35-43 | Bucket after bucket, the table lists no entry twice |
| Shash.Table.FindNode | trunk/utils/shash.c:88-108 | The newest entry of the word, or nothing only if there is none |
| Shash.Table.Insert | trunk/utils/shash.c:110-135 | The word's newest entry is the new one, other words are unchanged, and the cursor keeps its place |
| Shash.Table.Rewalk | trunk/utils/shash.c:166-171 | The whole table is to be walked again |
| Shash.Table.Advance | trunk/utils/shash.c:185-197 | Runs of empty buckets are skipped without skipping an entry |
| Shash.Table.Walk | trunk/utils/shash.c:177-205 | One call gives the next entry and moves past it; once none is left every call gives -1 |
| Shash.Table.CollectAll | trunk/utils/shash.c:166-205 | After a rewind repeated calls give every stored entry exactly once |
| Shash.MissedFirst | trunk/utils/shash.c:71-72 | A walk of a new table that was not rewound gives every entry if and only if bucket 0 is empty |
| Shash.BucketOfWalked | trunk/utils/shash.c:177-205 | Such a walk meets an entry if and only if it is stored and its key does not hash to bucket 0 |
| Spam.WordProcess | trunk/src/spam.c:288-301 | Words of 2 to 19 bytes are put in lower case in place, others refused and left alone |
| Spam.IntroducedAddUp | trunk/src/spam.c:280-283 | Words first met in spam and words first met in ham together are the distinct words |
| Spam.Again | trunk/src/spam.c:270-273 | A known word's counters move and no other entry changes |
| Spam.First | trunk/src/spam.c:274-278 | A new word gets one entry with the right counts |
| Spam.Training.Learn | trunk/src/spam.c:268-284 | Table and counters stay exact, modulo 2^32, for the words seen so far |
| Spam.Training.Walk | trunk/src/spam.c:255-286 | A mail counts once and adds exactly its accepted words in lower case |
| Spam.Train | trunk/src/spam.c:255-301 | After any sequence of spam and ham mails there is one entry per distinct word, with its exact spam and ham occurrences and their sum |
| Spam.CountersAgree | trunk/src/spam.c:280-282 | total_num is spam_num plus ham_num |
| Spam.Close | trunk/src/spam.c:166-191 | What is written out is what the cursor has not passed: right after training everything but bucket 0, hence everything if and only if that is empty |
| Spam.TrainAndClose | trunk/src/spam.c:166-191 | After any mails, of the words seen exactly those whose hash is not 0 modulo the table's length are written out |
| Spam.BucketZeroLost | trunk/src/spam.c:166-191 | A single ham mail with the word M9 is counted under m9, whose hash is 14 * 1024, and m9 is not written out |
| CfgLexer.TrimBlanks | trunk/utils/cfg.c:91-98 | The string is cut at its first NUL, then blanks at the end go and others stay |
| CfgLexer.ScanChar | trunk/utils/cfg.c:110-162 | One character changes the state without changing what the rest of the file must come to |
| CfgLexer.Scan | trunk/utils/cfg.c:100-167 | The state machine finds the next token of the file and stops right behind it, counts the newlines it passes, and leaves the caller's token alone when the file ends in a comment |
| CfgParser.Parser.GetToken | trunk/utils/cfg.c:169-178 | The buffered token, or the next of the file |
| CfgParser.Parser.Unget | trunk/utils/cfg.c:179-184 | The token comes again |
| CfgParser.Parser.ParsePair | trunk/utils/cfg.c:188-212 | The loops and the buffer follow the grammar's production for a pair, its errors included |
| CfgParser.Parser.ParsePairs | trunk/utils/cfg.c:215-240 | The same for a pair list |
| CfgParser.Parser.ParseSection | trunk/utils/cfg.c:267-290 | The same for a section |
| CfgParser.Parser.ParseSections | trunk/utils/cfg.c:292-316 | The same for the list of sections |
| CfgParser.ParseCfg | trunk/utils/cfg.c:318-340 | The same for a whole file: the configuration, or the error |
| CfgParser.Read | trunk/utils/cfg.c:421-436 | The value of the first pair in file order that answers to section and key, also across sections of the same name; -1 only if there is none |
| CfgRender.ParseOfRender | trunk/utils/cfg.c:91-340 | Any layout of a configuration, with comments, blank lines, indentation and blanks around = and brackets, is read back as that configuration |
| CfgRender.ParseOfCutFile | trunk/utils/cfg.c:163-166 | What becomes of any file that stops inside a line of its last section: in a blank line it is read, in a comment if and only if a blank line stands between the last pair and it, and in the line of a pair never; inside a value because the string was never terminated |
| CfgSound.AcceptedMeansWritten | trunk/utils/cfg.c:188-340 | An accepted file holds exactly the tokens of its configuration besides newlines, which has no empty section |
| CfgSound.ParsedIffWritable | trunk/utils/cfg.c:318-340 | The configurations some file is read as are exactly those with at least one section, no empty section, and strings that start alphanumeric, hold no closing bracket, =, newline or NUL and end in no blank |

## Left out

- Failed allocations and the `-1` or `exit` that follow them, and the overflow of counters and lengths that are plain `int` in the source; the `unsigned` counters of `spam.c` and the 64-bit hash do wrap around in the model.
- Bits.RoundUpPowOfTwo: requires arguments below 2^30, above which the shift leaves the 32-bit range.
- `kmp_match`: on a mismatch it skips a byte, so the border table says nothing about its result.
- The memory order of `mem.c`, `mcq.c` and `acq.c` below single reads and writes: steps are atomic and seen by all threads in one order, as the fences and locked instructions intend. Cancelled threads are not modelled.
- `Mpool_new`, `Mpool_alloc` and `Mpool_free` as methods: they appear as steps of a state machine, so the address arithmetic inside a block and `Mpool_dispose` are not modelled.
- What becomes of the mails that `monitor_push` gives up on (`trunk/src/monitor.c:114-120`): nothing in the source releases them.
- The mail pool itself in the pipeline: releasing a mail is the end of its way. `mailpool` has two allocating threads (`trunk/src/analy_noweb.c:374`, `trunk/src/analy_webmail.c:375`) and freeing ones, so by PoolThreads.SafeIffFewThreads it is not safe.
- `Judge` takes the keyword lists and the spam test as parameters, and leaves out that the keyword passed on is not set for mails that are only spam. The database rows that `log_record` writes are not modelled.
- FailureLinks.LinkFailures: queue and fail have one cell more than the source allocates, the one that is written when the seeds fill them; what that write destroys in the source's memory is not modelled.
- Base64.Encode: requires as many cells as it writes, whatever clen says, and says when those are more than clen; what lies behind a shorter buffer is not modelled.
- Base64Decode.Decode: requires the memory it reads, the cells it writes and characters up to `z` wherever the table is looked up, since outside these C says nothing.
- Base64Reader.DecodeStream: requires the same, and room for what is decoded, which the source takes for granted.
- UrlEncode.Decode: requires the memory it reads, which for an escape that is cut off goes beyond the length, and the output it fills.
- Base64Reader.Reader.Feed: stops at a negative count left, since C does not define the `memmove` of a negative length that follows.
- Base64Reader.Reader.FeedAll: requires that every packet fits the buffer and that what is read behind the `=` is in it, none of which the source checks; connections whose packets alternate share the buffer in the source and are not modelled.
- Mhash.Run: the pool is that of one thread, which allocates and frees in turn, as `hnode` is used; a cell handed out again holds a new node of the model.
- `Shash_del`, `Shash_free` and `Mhash_free`; `cur_index` grows with every call after the end of a walk, without bound in the model.
- Spam.Train: starts from an empty table; `load_file`, the tokenizer `get_token` with `strtok`, and `spam_filter`, which is floating point, are not modelled. Files that cannot be opened count as not there.
- The 1024-byte token buffers of `cfg.c` are taken to be long enough, the linked lists are sequences, and characters from 128 on are neither alphanumeric nor space.
- `url_decode_replace_2` and `quote_decode`, which nothing depends on; `List`, the thread pool, `match_rebuild`, files that stop inside a section header, the header scanning of `analy_noweb.c`, `analy_webmail.c`, raw sockets, the database, character sets, logging, system statistics and the front end.
