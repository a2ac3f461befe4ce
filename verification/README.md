# Verified models of the OLSR.org Network Framework

This project models the parts of the framework whose correctness is least obvious
from reading them, and proves what they are for:

- **Regular expressions** (`external/regex`). The compiler turns an extended regular
  expression into a flat strip of operators with relative jump distances, by
  emitting, inserting in the middle, patching and copying. The matcher runs the strip
  as a set of states, kept either as the bits of one word or as one byte per state.
  `RegexSyntax` says what an expression is and means, `RegexReader` that its text can
  be read in one way only, `RegexCompile` compiles it,
  `RegexStrip` lays out the strip, `RegexStates` and `RegexMeaning` connect the moves
  on a strip with languages, `RegexScan`, `RegexLarge` and `RegexSmall` are the
  matching engine, `RegexMust` the literal every match must contain, `RegexLeftmost`
  when the start that is reported is the leftmost one, and `Regex` puts them together.
- **The AVL tree threaded with a list** (`src-api/common/avl.c`, `list.h`). Nodes are
  objects with parent, child and list pointers that are changed in place. `AvlShape`
  has the nodes and the shapes their pointers form, `AvlLinks` the pointer surgery,
  `AvlPaths`, `AvlInsert` and `AvlRemove` the rebalancing, `AvlList` the list,
  `AvlOrder` its order, `AvlFind` the lookups, `Avl` insertion and removal,
  `AvlRuns` what follows for whole runs, and `AvlKeys` why integer keys are enough.
- **Packets and messages** (`src-api/rfc5444`; RFC 5444). `Octets` has the pointers
  into buffers, `Tlvs` the TLVs and how they are parsed and sorted, `AddressTlvs` how
  the TLVs of neighbouring addresses share one, `AddressBlocks` the compressed address
  blocks, `Addresses` all blocks of a message, `TlvWriter` the buffer with added and
  reserved TLVs, `Messages` and `Packets` the rest of the format, with both directions:
  what the writer writes the reader reads back. `Grammar` says which octets are a TLV,
  an address block, a message and a packet, apart from how they are read, and that
  exactly these are accepted. `Schedule` hands the TLVs of a block to
  a consumer, `ConsumerEntries` lists what it asks for, `Consumers` calls the consumers
  of a message, and `PacketConsumers` those of a packet.
- **Wire arithmetic** (`src-api/rfc5444/rfc5444.c`). `Rfc5444` has the wrapping
  sequence numbers and the codes for times (section 5 of RFC 5497) and metrics
  (section 6.2 of RFC 7181).
- **The duplicate set** (`src-api/subsystems/oonf_duplicate_set.c`). `DuplicateSet`
  has the sliding window over wrapping sequence numbers and its restart rule.

Loops and updates in place are methods over arrays and classes, as in the source;
what they compute is said by functions on values and sets, about which the lemmas
are. Ghost parameters carry the reason why a step is right: the code that a part of a
strip encodes, or the place of a subtree in its tree.

Some choices:

- A strip's operand is a number and not the low 27 bits of a word. Operands are
  characters, set numbers or distances inside the strip, so packing them loses
  nothing as long as the strip and the sets are shorter than 2^27.
- Characters are bytes, as on platforms where `char` has no sign. The parser's scan
  buffer ends with NULs; after an error the parser goes on reading NULs, as in the
  source.
- `RegexLarge` and `RegexSmall` are two texts because the source compiles `engine.c`
  twice, with different macros. Both are proved to compute the same functions, which
  is why they agree.
- The search does not promise the leftmost match: `fast` takes a position for cold
  when the state set looks fresh, and for an expression such as `(()|x)y` it does so
  after the `x` of the text `xy`. Existence, and being longest from the reported
  start, hold for every expression; being leftmost holds exactly for those expressions
  that `RegexLeftmost.LeftmostExactly` describes.
- A pattern that uses what is not modelled (see below) is refused, so a reading that is
  well formed never uses it.
- The head of a list is a node of which only the list pointers are used, which is how
  the source sees it after a cast. Keys are integers under their usual order, which
  stand for the keys of any tree (`AvlKeys.RanksCompare`). The node counter has 32 bits
  and wraps around.
- In the removal of a node the steps after the left subtree of a parent has shrunk are
  written twice in the source, once for a removed leaf; here they are one method.
- `_parse_tlvblock` compares pointers and does not cut the buffer off at the end of the
  block, so a TLV may reach behind it (`Grammar.BlockOverrun`).
- The comment above `_test` says that a query leaves the entry unchanged. The code counts
  a number that is too old, forgets the count otherwise, and may start the entry over:
  `DuplicateSet.QueryLeavesExactly` is the exact condition.
- A duplicate set entry starts with a cleared counter, because memory of its class is
  handed out cleared.
- The parsers of RFC 5444 are proved equal to functions on the octets, for all octets,
  with the octet arithmetic of the source (`num_addr - 1` of no address is 255, the
  length of the middle of an address wraps around). Where the source would go on with
  addresses that are no longer inside its arrays, or would divide the length of a value
  by a number of addresses that wrapped around to 0, the functions give the code
  `UNDEFINED`, which no octets that were written lead to.
- A prefix length of 255 on the wire is read as the full length of the address by
  `netaddr_from_binary_prefix`; the round trips leave such prefix lengths out.
- Packet TLVs are kept in a tree that compares 32 bits of a 16-bit key. The bits behind
  the key are zero, so the order is that of the keys.
- The test for room in a packet counts the TLVs that are set, of which there are none
  yet, and not the room that was reserved for them. Where it lets a message in that ends
  behind the limit, `Packets.Target.AddMessage` stops instead of writing there. What the
  handlers do may differ from packet to packet.
- In `_schedule_tlvblock` a mandatory entry fails as soon as one TLV of its type is not
  for the address, and the TLV callback may be called several times with one TLV; both
  are stated exactly.
- `docs/rfc5444/rfc5444_dropcontext.txt` calls `DROP_MSG_BUT_FORWARD` a variant of
  `DROP_MESSAGE`, which drops only the current message. The code passes it on to the
  loop over the messages, which ends: `PacketConsumers.NextHandled` is the exact
  condition, `PacketConsumers.ForwardingDropsTheRest` an input.
- An error code from a start callback is negative, and forgotten when an end callback
  answers with OKAY, because the larger result wins; then the next address is visited,
  and later ends are not told. `Consumers.ErrorForgottenExactly` says when; the other
  results hold for such answers too, or ask for answers without error codes.
- A block callback that drops TLVs drops the first one of each entry it marks, and not
  those chained behind it.

## Model

| member | source | states |
|---|---|---|
| `RegexReader.ReadExact` | external/regex/regcomp.c:253-765 | the parser's decisions, written as a function on the text, find a tree if and only if there is a well-formed one with that text, and then that one |
| `RegexReader.Unambiguous` | external/regex/regcomp.c:253-765 | a text has at most one well-formed tree: `[^a]`, `a{2}` and `[]a]` can be read in one way only |
| `RegexCompile.Parser.constructor` | external/regex/regcomp.c:196-198 | a fresh parser has the whole pattern unread, no error and an empty strip |
| `RegexCompile.Parser.Emit` | external/regex/regcomp.c:1306-1323 | one operator is appended, unless an error has been recorded |
| `RegexCompile.Parser.Insert` | external/regex/regcomp.c:1328-1358 | the operator goes in front of everything emitted from a position on, its operand being one beyond the old end |
| `RegexCompile.Parser.Ahead` | external/regex/regcomp.c:1363-1372 | an operator's operand becomes the distance to the current end, nothing else changes |
| `RegexCompile.Parser.Duplicate` | external/regex/regcomp.c:1280-1297 | a range of the strip is appended once more |
| `RegexCompile.Parser.Repetition` | external/regex/regcomp.c:943-1007 | for every operand language l the emitted code stands for the union of l^k for from <= k <= to (to may be infinite), and the recursion ends |
| `RegexCompile.Parser.RepeatFromZero` | external/regex/regcomp.c:964-975 | x{0,n} as (x{1,n}\|) keeps the language |
| `RegexCompile.Parser.RepeatOneToMany` | external/regex/regcomp.c:979-990 | x{1,n} as (x\|)x{1,n-1} keeps the language |
| `RegexCompile.Parser.RepeatMany` | external/regex/regcomp.c:995-1002 | x{m,n} as x x{m-1,n-1} keeps the language |
| `RegexCompile.Parser.Count` | external/regex/regcomp.c:608-620 | a count is accepted if and only if it has a digit and does not pass 255, it takes exactly its digits, and the number is their decimal value |
| `RegexCompile.Parser.Counted` | external/regex/regcomp.c:410-427 | well-written bounds are accepted and no others, and the code means the repetition they say; a missing brace or reversed bounds are errors |
| `RegexCompile.Parser.BracketTerm` | external/regex/regcomp.c:707-765 | exactly the terms of the grammar are accepted, and the term read adds exactly its members to the set |
| `RegexCompile.Parser.FreezeSet` | external/regex/regcomp.c:1106-1132 | the number returned names a set with the same members, whether an older one is shared or not, and older sets keep theirs |
| `RegexCompile.Parser.Bracketed` | external/regex/regcomp.c:628-702 | exactly the bracketed lists of the grammar are accepted, and the code stands for exactly the one-character words of the set, complemented if a circumflex comes first |
| `RegexCompile.Parser.Expression` | external/regex/regcomp.c:296-437 | exactly the atoms with a repetition operator of the grammar are accepted, the one that is read is the only one the text can begin with, and code for its language is appended |
| `RegexCompile.Parser.Alternatives` | external/regex/regcomp.c:253-287 | what is accepted and how far it is read is what the grammar says, nothing before it in the strip changes, and the code appended stands for exactly the words of the expression |
| `RegexStrip.EncodeLaid` | external/regex/regex2.h:72-91 | operators laid out by the emitters form the code they encode, at any place in any strip |
| `RegexStrip.PieceBracketed` | external/regex/regcomp.c:1280-1372 | every strip of any code is well bracketed: each operator and its partner name each other, choice chains reach their end and lead back |
| `RegexMeaning.MoveSound` | external/regex/engine.c:850-960 | every move the engine makes inside any piece of code extends words that lead to its source to words that lead to its target |
| `RegexMeaning.ReachMeaning` | external/regex/engine.c:770-960 | the end of a piece of code is reached by reading a word if and only if the word is in the code's language |
| `RegexMeaning.ReachAnyMeaning` | external/regex/engine.c:686-764 | with restarts the end is reached if and only if some end of the text read is in the language |
| `RegexScan.VisitSettles` | external/regex/engine.c:869-953 | looking at one operator, and jumping back when a loop gains its start, leaves everything before the scan position settled |
| `RegexScan.SettledComplete` | external/regex/engine.c:869-960 | a scan that has passed every operator has computed the whole closure |
| `RegexScan.FindChoiceEnd` | external/regex/engine.c:930-937 | following OOR2 operators ends at the O_CH that closes the choice |
| `RegexLarge.Visit` | external/regex/engine.c:869-953 | one operator of the scan over a byte array, in place |
| `RegexLarge.Step` | external/regex/engine.c:850-960 | with a byte per state, step is exactly the closure of aft and the successors of bef on the character; it terminates in spite of jumping back |
| `RegexLarge.Matching.Slow` | external/regex/engine.c:770-843 | slow returns the largest end of a word of the language that begins at the start, or none if there is no such end |
| `RegexLarge.Matching.Fast` | external/regex/engine.c:686-764 | fast stops at the first position where some match ends, and coldp is the last position before with no match under way |
| `RegexLarge.Matcher` | external/regex/engine.c:127-285 | the matcher finds exactly what Search says, the prescreen for a literal never losing a match |
| `RegexSmall.Step` | external/regex/engine.c:850-960 | with a bit per state in a 64-bit word, step computes the same closure |
| `RegexSmall.Matching.Slow` | external/regex/engine.c:770-843 | slow on 64-bit words gives the same result as on byte arrays |
| `RegexSmall.Matching.Fast` | external/regex/engine.c:686-764 | fast on 64-bit words gives the same result and the same coldp as on byte arrays |
| `RegexSmall.Matcher` | external/regex/engine.c:127-285 | the matcher on 64-bit words gives the same result as on byte arrays |
| `RegexSearch.LongestEndIsLongest` | external/regex/engine.c:825-843 | the largest end is an end, and no larger one is |
| `RegexSearch.ScanFinds` | external/regex/engine.c:704-764 | a scan reports an end exactly if there is one, the first there is, and a match that ends there begins at coldp or later |
| `RegexGuts.SearchExact` | external/regex/engine.c:146-203 | a search succeeds if and only if some substring of the text is in the language; the range it reports is in the language and the longest one from its start |
| `RegexLeftmost.LeftmostExactly` | external/regex/engine.c:146-203 | the start a search reports is the leftmost one on every text if and only if no text v, inside which no word ends, leaves the engine in its first states while some part v[i..] begins a word |
| `RegexLeftmost.ExampleForgets` | external/regex/engine.c:704-729 | for (()\|x)y and the text xy the search reports 1 and not 0 |
| `RegexLeftmost.ExampleMeans` | external/regex/regcomp.c:253-287 | that code has the language of the expression written (()\|x)y |
| `RegexGuts.MustOccurs` | external/regex/engine.c:153-161 | text that does not contain the required literal has no match |
| `RegexGuts.Prescreen` | external/regex/engine.c:154-158 | the loop finds the literal if and only if the text contains it |
| `RegexMust.MustSound` | external/regex/regcomp.c:1418-1490 | the literal found for an expression is a contiguous part of every word in its language |
| `RegexMust.FindMust` | external/regex/regcomp.c:1418-1490 | findmust on the strip of any code computes that literal and never finds the strip bad |
| `RegexMust.MustIsLongest` | external/regex/regcomp.c:1418-1490 | no run of literal characters that the scan passes is longer than the literal it reports, which is one of them; it reports none if and only if they are all empty |
| `RegexMust.PlusCount` | external/regex/regcomp.c:1495-1523 | pluscount computes the nesting of loops and never finds the strip bad |
| `Regex.Compile` | external/regex/regcomp.c:153-247 | a pattern compiles if and only if it has a well-formed reading, and for that reading, of which there is only one, the strip is the endmarkers around well-bracketed code for exactly its language; the strip is never found bad |
| `Regex.Execute` | external/regex/regexec.c:139-160 | regexec chooses a state set by the number of states, which makes no difference to the result |
| `Regex.ExecuteRange` | external/regex/engine.c:144-152 | with REG_STARTEND a match is reported exactly if a word lies inside the range, it is a longest one inside the range from its start, and a range that ends before it begins is refused |
| `Regex.Match` | external/regex/regexec.c:139-160 | a pattern is refused if and only if it has no well-formed reading; otherwise a match is reported if and only if a word of the expression is in the text, and the range reported is the longest from its start |
| `AvlShape.PlugLevel` | src-api/common/avl.c:456-610 | replacing a subtree by one of the same height keeps a tree balanced |
| `AvlShape.LeftRightRebalances` | src-api/common/avl.c:484-486 | a double rotation brings a left-heavy node back into balance at the height its left subtree had |
| `AvlShape.RightRebalances` | src-api/common/avl.c:479-482 | a single rotation brings a left-heavy node back into balance, one level lower unless its child was even |
| `AvlShape.RightKeeps` | src-api/common/avl.c:364-403 | a rotation keeps the nodes in order |
| `AvlLinks.RotateRight` | src-api/common/avl.c:364-403 | the pointers form the rotated tree, parents and root included, with the balances the source computes |
| `AvlLinks.RotateLeft` | src-api/common/avl.c:410-449 | the mirror image |
| `AvlLinks.TakePlace` | src-api/common/avl.c:282-316 | a node from outside takes over the place, the links and the balance of a node in the tree |
| `AvlLinks.Splice` | src-api/common/avl.c:649-749 | a node with at most one child is replaced by that child |
| `AvlInsert.PostInsert` | src-api/common/avl.c:456-502 | after a subtree has grown by one the whole tree is balanced again, with the same nodes in the same order |
| `AvlRemove.PostRemove` | src-api/common/avl.c:550-610 | after a subtree has shrunk by one the whole tree is balanced again, with the same nodes in the same order |
| `AvlRemove.LocalMin` | src-api/common/avl.c:617-624 | the left-most node of a subtree |
| `AvlRemove.RemoveWorker` | src-api/common/avl.c:642-777 | the tree is balanced and has every node but the removed one, in the same order |
| `AvlList.Add` | src-api/common/list.h:93-98 | the ring of pointers is the list with the node inserted |
| `AvlList.Remove` | src-api/common/list.h:146-160 | the ring is the list without the node, whose pointers are cleared |
| `AvlFind.FindRecDescends` | src-api/common/avl.c:334-357 | the recursive lookup on the pointers ends where the descent in the tree does |
| `AvlFind.DescendLands` | src-api/common/avl.c:334-357 | all keys before that place are smaller and all behind it larger, and the side the key belongs to is free |
| `AvlFind.Find` | src-api/common/avl.c:88-100 | avl_find returns the first node in the list with the key, or NULL |
| `AvlFind.FindLessEqual` | src-api/common/avl.c:110-143 | avl_find_lessequal returns the last node in the list whose key is not larger, or NULL |
| `AvlFind.FindGreaterEqual` | src-api/common/avl.c:152-184 | avl_find_greaterequal returns the first node in the list whose key is not smaller, or NULL |
| `Avl.Create` | src-api/common/avl.c:71-79 | a new tree is valid and empty |
| `Avl.InsertNew` | src-api/common/avl.c:239-273 | picking the side by the balance of the node the lookup ended at puts the node where its key belongs |
| `Avl.Insert` | src-api/common/avl.c:193-275 | the whole invariant holds again (links, balances, order of tree and list, followers, counter); the node is behind all nodes with its key or less; it is refused if and only if duplicates are not allowed and the key is there |
| `Avl.Remove` | src-api/common/avl.c:278-325 | the whole invariant holds again and just the node is gone, a follower taking its leader's place in the tree |
| `AvlRuns.RunStable` | src-api/common/avl.c:193-325 | after any run of insertions and removals the list is the stable sort of the surviving nodes |
| `AvlRuns.LookupDepth` | src-api/common/avl.c:334-357 | a lookup that makes d comparisons needs a tree with at least Fibonacci(d+2)-1 keys |
| `AvlKeys.RanksCompare` | src-api/common/avl.h:97-104 | for any comparator that is an order, and any finite number of keys, integers have comparisons of the same sign |
| `Rfc5444.DifferenceUnwraps` | src-api/rfc5444/rfc5444.c:231-243 | a number less than 2^15 away from a known one is recovered from its low 16 bits |
| `Rfc5444.TimeEncode` | src-api/rfc5444/rfc5444.c:87-123 | for every 64-bit time the code is the least whose decoded value is not smaller |
| `Rfc5444.TimeFromVector` | src-api/rfc5444/rfc5444.c:54-74 | the value of the first hop count range that includes the hop count; 255 for a malformed vector |
| `Rfc5444.TimeMonotone` | src-api/rfc5444/rfc5444.c:131-170 | decoding is monotone on all 256 codes |
| `Rfc5444.TimeRoundTrip` | src-api/rfc5444/rfc5444.c:87-170 | decoding, encoding and decoding again gives the same time for every code |
| `Rfc5444.TimeScale` | src-api/rfc5444/rfc5444.c:131-170 | the times in numbers: the codes 80 to 87 are 1000 to 1875 milliseconds, eight codes further is twice as long and eight codes before half as long, rounded down; code 0 is no time |
| `Rfc5444.LongestTime` | src-api/rfc5444/rfc5444.c:131-170 | no 64-bit time is larger than that of code 255 |
| `Rfc5444.TimeOvershoot` | src-api/rfc5444/rfc5444.c:87-170 | from 1000 on, an encoded time is less than an eighth too long |
| `Rfc5444.MetricEncode` | src-api/rfc5444/rfc5444.c:181-210 | for every metric in range the code is the least whose decoded value is not smaller; the special cases outside the range |
| `Rfc5444.MetricIncreasing` | src-api/rfc5444/rfc5444.c:217-229 | decoding is strictly increasing on the 4096 codes |
| `Rfc5444.MetricScale` | src-api/rfc5444/rfc5444.c:217-229 | the metrics in numbers: the first 256 codes are 1 to 256, and 256 codes further a metric is twice as large, counted from -256 |
| `Rfc5444.MetricRoundTrip` | src-api/rfc5444/rfc5444.c:181-229 | encoding a decoded metric gives its code back |
| `Rfc5444.MetricOvershoot` | src-api/rfc5444/rfc5444.c:181-229 | an encoded metric v is less than (v+256)/256 too large |
| `DuplicateSet.DuplicateEntry.Test` | src-api/subsystems/oonf_duplicate_set.c:254-309 | the entry with its 32-bit history and wrapping numbers does what a set of accepted unwrapped numbers does; history bit k is set if and only if current-k has been accepted since the last restart |
| `DuplicateSet.AnswerExactly` | src-api/subsystems/oonf_duplicate_set.c:254-309 | in any run, by the numbers received since the last restart, of which c is the largest: a number is current exactly if it is c, too old exactly if it is less than c-31 and the entry does not start over, newest exactly if it is larger than c or the entry starts over, and between c-31 and c new exactly if it has not been received, and otherwise a duplicate |
| `DuplicateSet.NewOnce` | src-api/subsystems/oonf_duplicate_set.c:254-309 | in any run, no number is reported as new twice between restarts |
| `DuplicateSet.RestartExactly` | src-api/subsystems/oonf_duplicate_set.c:265-279 | in any run, the entry starts over exactly at a too old number that follows eight others with only current ones in between |
| `DuplicateSet.NumbersAreTheSenders` | src-api/subsystems/oonf_duplicate_set.c:264-265 | as long as the sender's numbers stay within 2^15 of the newest one, the numbers the entry works with are the sender's |
| `DuplicateSet.DuplicateEntry.Query` | src-api/subsystems/oonf_duplicate_set.c:254-309 | the same answers when nothing is to be added; the history and the newest number stay unless the entry starts over |
| `DuplicateSet.QueryLeavesExactly` | src-api/subsystems/oonf_duplicate_set.c:233-309 | a query changes nothing if and only if the number is the newest one, or is not too old and none too old has been counted, although the comment in the source says that the entry is unchanged; it changes as much as adding the number if and only if that is too old or was accepted |
| `DuplicateSet.QueryThenAdd` | src-api/subsystems/oonf_duplicate_set.c:254-309 | asking for a number first does not change the answer when it is then added, if and only if it is not too old or fewer than seven too old ones were counted |
| `DuplicateSet.Set.Add` | src-api/subsystems/oonf_duplicate_set.c:149-206 | entries are kept apart: only the one of the message's type and originator changes, or is made |
| `DuplicateSet.Set.Test` | src-api/subsystems/oonf_duplicate_set.c:212-238 | a query makes no entry, and touches only that of the type and originator it asks for |
| `Tlvs.TlvRead` | src-api/rfc5444/rfc5444_reader.c:439-529 | the octets of any TLV, with or without extension, indices, long values and one value per address, are read back as that TLV |
| `Tlvs.ParseTlv` | src-api/rfc5444/rfc5444_reader.c:439-529 | on any octets whatever: the pointer arithmetic and the error codes are those of the specification, and nothing is read outside the buffer |
| `Grammar.TlvExactly` | src-api/rfc5444/rfc5444_reader.c:439-529 | on any octets: a TLV is accepted if and only if the octets are one, said in plain arithmetic on each octet, and what is read is what they say |
| `Grammar.TlvRefused` | src-api/rfc5444/rfc5444_reader.c:439-529 | both index flags are refused with their code, and so is a long length without a value; a value that cannot be divided is refused only where everything else of a TLV is there |
| `Tlvs.ValueInside` | src-api/rfc5444/rfc5444_reader.c:497-529 | on any octets: a TLV that is accepted holds a whole value for each address that it covers |
| `Tlvs.ValueExactly` | src-api/rfc5444/rfc5444_reader.c:651-655 | a TLV with a value for each address has them in the order of the addresses, one behind the other |
| `Tlvs.ParseTlvBlock` | src-api/rfc5444/rfc5444_reader.c:542-591 | on any octets: the list of TLVs, sorted as they are read, and where reading ends |
| `Grammar.TlvBlockExactly` | src-api/rfc5444/rfc5444_reader.c:542-591 | on any octets: a block is accepted if and only if TLVs stand one behind the other from its start until its end is reached, and they are listed sorted |
| `Grammar.BlockOverrun` | src-api/rfc5444/rfc5444_reader.c:566-590 | its end can be overrun: a TLV that begins in the block may use octets behind it |
| `Tlvs.TlvBlockRead` | src-api/rfc5444/rfc5444_reader.c:542-591 | a block of any TLVs is read back |
| `Tlvs.SortingStable` | src-api/rfc5444/rfc5444_reader.c:581-583 | putting TLVs into the sorted tree keeps those of one type in the order they were received, and loses none |
| `AddressTlvs.CalculateTlvFlags` | src-api/rfc5444/rfc5444_msg_generator.c:767-802 | each TLV of the address is compared with the one before it of its type |
| `AddressTlvs.MarksExactly` | src-api/rfc5444/rfc5444_msg_generator.c:767-802 | a TLV continues one of the address before it if and only if that address has one of the type with the same length, and not at the start of a fragment; and its value is the same if and only if the octets are |
| `AddressTlvs.CalculateAll` | src-api/rfc5444/rfc5444_msg_generator.c:215-335 | the same for all calls that a run of the writer makes, an address coming twice where a fragment ends in front of it |
| `AddressTlvs.RunMarks` | src-api/rfc5444/rfc5444_msg_generator.c:215-335 | after any such run all marks up to the last address are right, whatever they were before, and no value has changed |
| `AddressTlvs.WriteTlvType` | src-api/rfc5444/rfc5444_msg_generator.c:960-1049 | neighbouring addresses with values of one length share a TLV, the octets written being those of the runs |
| `AddressTlvs.RunEndExactly` | src-api/rfc5444/rfc5444_msg_generator.c:968-1003 | a run goes on exactly as long as the marks and the block do |
| `AddressTlvs.RunTlvExactly` | src-api/rfc5444/rfc5444_msg_generator.c:1005-1046 | a run has a value for each address if and only if some value differs from the one before; and its indices are those of its addresses, left out if they are all of the block |
| `AddressTlvs.TypesSay` | src-api/rfc5444/rfc5444_msg_generator.c:960-1049 | the TLVs on the wire say about each address and type exactly the values the address was given |
| `AddressBlocks.WriteAddrBlock` | src-api/rfc5444/rfc5444_msg_generator.c:1075-1164 | the octets of an address block with shared head, shared or zero tail and one or several prefix lengths |
| `AddressBlocks.LayoutExactly` | src-api/rfc5444/rfc5444_msg_generator.c:1081-1160 | the layout is the one the source picks: no head or tail for an address alone, the longest tail all addresses share that leaves an octet in the middle, left out if it is zero, and one prefix length unless it is that of the whole address |
| `AddressBlocks.ParseAddrBlock` | src-api/rfc5444/rfc5444_reader.c:791-875 | on any octets: the entry, the error codes and the pointer are those of the specification, with the octet arithmetic of the source |
| `Grammar.AddrBlockExactly` | src-api/rfc5444/rfc5444_reader.c:791-875 | on any octets: an address block is accepted if and only if the octets are one, with their number, head, tail, middles and prefix lengths where they should be |
| `AddressBlocks.AddressExactly` | src-api/rfc5444/rfc5444_reader.c:940-941 | octet k of address i is octet k of the middle part i where there is one, and that of the block otherwise |
| `AddressBlocks.PrefixExactly` | src-api/rfc5444/rfc5444_reader.c:943-951 | the prefix length of an address is its own one, or the one of the block |
| `AddressBlocks.BlockRead` | src-api/rfc5444/rfc5444_reader.c:791-875 | an address block in any layout is read back |
| `AddressBlocks.AddressBack` | src-api/rfc5444/rfc5444_reader.c:940-941 | head, middle and tail put together again are the address |
| `Addresses.WriteAddresses` | src-api/rfc5444/rfc5444_msg_generator.c:1059-1187 | all blocks with their TLVs, the lengths being filled in afterwards |
| `Addresses.ParseBlocks` | src-api/rfc5444/rfc5444_reader.c:1111-1137 | on any octets: the loop over the address blocks of a message |
| `Addresses.AddressRoundTrip` | src-api/rfc5444/rfc5444_msg_generator.c:1059-1187 | for any partition into blocks, parsing gives back every address and prefix length and for each type exactly the values of the address |
| `Addresses.RunRoundTrip` | src-api/rfc5444/rfc5444_msg_generator.c:215-335 | the same from TLVs with any marks, once the writer has gone through the addresses: the values read are those that were given |
| `TlvWriter.WriteTlv` | src-api/rfc5444/rfc5444_tlv_writer.c:189-229 | the octets written are those of the TLV |
| `TlvWriter.TlvData.Add` | src-api/rfc5444/rfc5444_tlv_writer.c:88-102 | a TLV is refused if and only if it does not fit; otherwise it stands behind the others, and room that was reserved stays |
| `TlvWriter.TlvData.Allocate` | src-api/rfc5444/rfc5444_tlv_writer.c:114-125 | room is refused if and only if there is none |
| `TlvWriter.TlvData.Set` | src-api/rfc5444/rfc5444_tlv_writer.c:140-153 | a TLV is refused if and only if less room is left of what was reserved; what is behind the room is not touched |
| `Messages.FinishMessage` | src-api/rfc5444/rfc5444_msg_generator.c:1248-1337 | what is copied into a packet is the message: header with its size, TLVs that were added and set, and addresses, without the room that was reserved and not used |
| `Messages.ParseMessage` | src-api/rfc5444/rfc5444_reader.c:1034-1137 | on any octets: header, TLVs and address blocks of a message, or the error |
| `Grammar.HeaderExactly` | src-api/rfc5444/rfc5444_reader.c:1055-1103 | on any octets: the type, the flags, the size, and the address, hop limit, hop count and sequence number that the flags announce |
| `Grammar.MessageExactly` | src-api/rfc5444/rfc5444_reader.c:1055-1137 | on any octets: a message is accepted if and only if the octets are a header, a TLV block and address blocks, each with its TLV block, up to the size that the header says |
| `Messages.MessageRoundTrip` | src-api/rfc5444/rfc5444_reader.c:1034-1137 | a message is read back with its header, its TLVs of each type in their order, and for each address exactly its values |
| `Packets.ParsePacket` | src-api/rfc5444/rfc5444_reader.c:129-227 | on any octets: version, sequence number, TLVs and messages of a packet, up to the first that is broken |
| `Grammar.PacketRefused` | src-api/rfc5444/rfc5444_reader.c:129-189 | on any octets: a packet is read if and only if its first octet is below 16 and its number and TLV block are there as the flags announce; it is refused for its version if and only if the first octet is 16 or more |
| `Grammar.PacketExactly` | src-api/rfc5444/rfc5444_reader.c:129-227 | on any octets: what is read is the front of the packet and whole messages one behind the other, up to octets that are no message; the result is OKAY if and only if they end with the packet |
| `Packets.Target.Begin` | src-api/rfc5444/rfc5444_pkt_generator.c:59-89 | a new packet has exactly the TLVs and the room that were granted to the calls of its handlers, in any order of the calls: each is refused if and only if it is too large for what the others left |
| `Packets.HeaderRoomExactly` | src-api/rfc5444/rfc5444_pkt_generator.c:247-262 | the room kept for the header is exactly what it takes when there are TLVs, and two octets more than it takes when there are none |
| `Packets.AllWritten` | src-api/rfc5444/rfc5444_tlv_writer.c:88-153 | where everything fits, a packet has every TLV that a handler adds or sets, in the order of the calls |
| `Packets.Target.Send` | src-api/rfc5444/rfc5444_pkt_generator.c:119-174 | the packet sent is its header, the TLVs that were added, those that could be set, and the waiting messages, one behind the other |
| `Packets.Target.Flush` | src-api/rfc5444/rfc5444_pkt_generator.c:99-174 | a packet that has not been begun is sent only by force, and then without messages |
| `Packets.Target.AddMessage` | src-api/rfc5444/rfc5444_msg_generator.c:1294-1326 | a packet is sent first if and only if the test for room says so; the message overruns the packet if and only if there is no room behind its TLVs and its reserved room; otherwise it is behind those that wait |
| `Packets.Target.SendAll` | src-api/rfc5444/rfc5444_msg_generator.c:1294-1326 | over any run of messages and any plans of the handlers: packet k has the number, the TLVs and the messages it is to have, all messages are in the packets in their order, and the run breaks off if and only if the lengths of the messages do not go together |
| `Packets.DealtAll` | src-api/rfc5444/rfc5444_msg_generator.c:1294-1326 | dealing messages out to packets loses none and keeps their order |
| `Packets.AlwaysDeliveredExactly` | src-api/rfc5444/rfc5444_msg_generator.c:1299-1309 | the test for room leaves out what is reserved: with one plan for all packets, all messages of some least length that fit behind the TLVs are always delivered if and only if nothing is reserved or two of them never come near the end of a packet |
| `Packets.SafeUnreserved` | src-api/rfc5444/rfc5444_msg_generator.c:1299-1309 | with any plans, if no handler asks for room, all messages that fit are delivered |
| `Packets.PacketRead` | src-api/rfc5444/rfc5444_reader.c:129-227 | a packet is read back: its number, its TLVs sorted by type, and its messages |
| `Packets.MessageReadsAs` | src-api/rfc5444/rfc5444_reader.c:1055-1137 | a message that was written is read as the message it was made from, wherever it stands in a packet |
| `Packets.AllDelivered` | src-api/rfc5444/rfc5444_reader.c:222-226 | reading the packets of a run gives back all messages that were sent, in their order |
| `Packets.EachRead` | src-api/rfc5444/rfc5444_reader.c:129-227 | each packet of a run is read with its own number, with exactly the TLVs added and set for it, sorted by type, and with the messages dealt to it |
| `Schedule.ScheduleTlvBlock` | src-api/rfc5444/rfc5444_reader.c:605-778 | which TLVs each entry of a consumer gets, whether a constraint failed, the calls of the TLV callback up to the first that stops the pass, the callback for the block, which TLVs are dropped, and the result |
| `Schedule.MeetsExactly` | src-api/rfc5444/rfc5444_reader.c:678-687 | in numbers: an entry fails the constraints if and only if it is mandatory and no TLV reaches it or one that does is not for the address, or it asks for a length and some TLV in its chain is shorter than the minimum or longer than the maximum |
| `Schedule.GoesExactly` | src-api/rfc5444/rfc5444_reader.c:655-734 | the entry that a TLV reaches is the first that does not end before the type of the TLV |
| `Schedule.InRangeMeans` | src-api/rfc5444/rfc5444_reader.c:355-372 | an entry is for a TLV if and only if the types agree, and the extensions if the entry asks for one |
| `Schedule.UpToStopExactly` | src-api/rfc5444/rfc5444_reader.c:655-676 | the calls go on up to the first answer that is neither OKAY nor a dropped TLV, and no further |
| `Schedule.DroppedUnseen` | docs/rfc5444/rfc5444_dropcontext.txt:45-56 | a dropped TLV is shown to no later consumer: the TLV callback is not called with it and no entry gets it |
| `Schedule.OnePassExactly` | src-api/rfc5444/rfc5444_reader.c:631-734 | an entry gets all TLVs of its type, as a search for each entry on its own would find them, for every block if and only if all earlier entries are for smaller types |
| `Schedule.ChainExactly` | src-api/rfc5444/rfc5444_reader.c:631-734 | then, on the fields: it gets a TLV if and only if type and extension agree, the address is between its indices, and the TLV has not been dropped, before or by the callback |
| `Schedule.AskedValues` | src-api/rfc5444/rfc5444_reader.c:631-734 | then these are the values that the address has |
| `Schedule.MandatoryExactly` | src-api/rfc5444/rfc5444_reader.c:678-687 | a mandatory entry fails if and only if it gets no TLV, or a TLV of its type is not for the address or has a wrong length |
| `Schedule.MandatoryMissed` | src-api/rfc5444/rfc5444_reader.c:678-687 | so an entry can fail although it gets a TLV: two TLVs of one type for addresses 0 and 1, looked at for address 1 |
| `Schedule.OptionalExactly` | src-api/rfc5444/rfc5444_reader.c:678-687 | an entry that is not mandatory fails only for the length of a TLV it gets |
| `Schedule.CalledOnceExactly` | src-api/rfc5444/rfc5444_reader.c:655-676 | the TLV callback is called for each TLV of the address, and once if and only if it drops the TLV or the pass does not skip several entries there |
| `Schedule.CallsExactly` | src-api/rfc5444/rfc5444_reader.c:631-734 | the callback is called once with a TLV that it drops, and otherwise once for each entry that the pass goes on by there, but at least once; and never with one that is not for the address or was dropped before |
| `Schedule.CallsCounted` | src-api/rfc5444/rfc5444_reader.c:655-676 | and that is how often the TLV is in the list of calls of a pass that is not stopped |
| `ConsumerEntries.AddConsumer` | src-api/rfc5444/rfc5444_reader.c:1245-1283 | the list of entries is built by inserting each behind the last one whose key is not larger, searched from the end |
| `ConsumerEntries.ListedRising` | src-api/rfc5444/rfc5444_reader.c:1254-1272 | the list is sorted by type and extension |
| `ConsumerEntries.ListedStable` | src-api/rfc5444/rfc5444_reader.c:1254-1276 | entries with one key keep their order, none is lost, and only reversed length bounds are changed |
| `ConsumerEntries.LengthsKept` | src-api/rfc5444/rfc5444_reader.c:1274-1276 | an entry keeps its minimum, and its maximum becomes the larger of the two; nothing else changes |
| `ConsumerEntries.AddedExactly` | src-api/rfc5444/rfc5444_reader.c:1254-1272 | whatever entries a consumer is added with, each gets all TLVs of its type for every block if and only if no TLV can be for two of them |
| `Consumers.ScheduleConsumers` | src-api/rfc5444/rfc5444_reader.c:1139-1197 | whatever the callbacks answer, what happens to a message is what Next says, event by event, until nothing is left to be done |
| `Consumers.CalledExactly` | src-api/rfc5444/rfc5444_reader.c:1139-1197 | on the fields: in a run that is not stopped a consumer is started once if it is for messages, and for any message or for this type, and otherwise never |
| `Consumers.ShownExactly` | src-api/rfc5444/rfc5444_reader.c:886-991 | on the fields: in such a run a consumer of addresses is shown an address once, under the same condition, unless an earlier consumer dropped it, and otherwise never |
| `Consumers.NobodyElse` | src-api/rfc5444/rfc5444_reader.c:1141-1144 | stopped or not, a consumer for another type of message is never called |
| `Consumers.DroppedExactly` | src-api/rfc5444/rfc5444_reader.c:966-983 | an address is dropped by those earlier consumers whose visit of it ended with DROP_ADDRESS |
| `Consumers.ResultExactly` | src-api/rfc5444/rfc5444_reader.c:886-1021 | event by event: a start or TLV callback sets the result to its answer, a dropped TLV counting as OKAY, and an end raises it to its answer if that is larger, a dropped address counting as OKAY |
| `Consumers.StoppedExactly` | src-api/rfc5444/rfc5444_reader.c:934-1021 | a run is stopped exactly by a message's start, TLVs or end, or by the end of an address, that leads to something else than OKAY |
| `Consumers.VisitSpelled` | src-api/rfc5444/rfc5444_reader.c:934-987 | event by event: what follows each event of a visit, by what the callbacks answered |
| `Consumers.ScheduleAddress` | src-api/rfc5444/rfc5444_reader.c:934-987 | one address: its start, its TLVs unless the start objects, and in any case its end, which is told whether something was dropped |
| `Consumers.ScheduleAddresses` | src-api/rfc5444/rfc5444_reader.c:918-991 | every address that has not been dropped is visited, up to the first result that is more than a dropped address |
| `Consumers.ScheduleEnds` | src-api/rfc5444/rfc5444_reader.c:1002-1021 | the ends of a group, from the last to the first; a consumer without an end callback leaves the result alone |
| `Consumers.OnlyOne` | src-api/rfc5444/rfc5444_reader.c:1139-1197 | a message has only one finished trace, so the callbacks that happen are determined |
| `Consumers.EachStartEnds` | docs/rfc5444/rfc5444_dropcontext.txt:58-61 | each start has its end, for messages and for addresses, whatever is dropped |
| `Consumers.FlagsTell` | docs/rfc5444/rfc5444_dropcontext.txt:58-61 | an end of a message is told that something was dropped if and only if the run was stopped before |
| `Consumers.OnlyEnds` | docs/rfc5444/rfc5444_dropcontext.txt:34-39 | once a message or packet is dropped, only ends are called |
| `Consumers.VisitsAre` | src-api/rfc5444/rfc5444_reader.c:1139-1197 | at any time, each visit before the current one has been made once, but for addresses that an earlier consumer had dropped, which have not been visited |
| `Consumers.EverybodyVisited` | src-api/rfc5444/rfc5444_reader.c:1139-1197 | a run that is not stopped makes every visit exactly once, but for those addresses |
| `Consumers.OkayVisitsAll` | src-api/rfc5444/rfc5444_reader.c:1139-1197 | so it does if the result is OKAY and no callback reports an error |
| `Consumers.GroupsApart` | src-api/rfc5444/rfc5444_reader.c:1146-1159 | consumers of one order are ended before anybody of another order is visited |
| `Consumers.EndsSeparate` | src-api/rfc5444/rfc5444_reader.c:1146-1159 | on the events: whoever is called behind an end of a message comes later in the order |
| `Consumers.ErrorForgottenExactly` | src-api/rfc5444/rfc5444_reader.c:967-983 | an error code is forgotten at an end if and only if there is a callback that answers with OKAY, or drops the address at its end |
| `PacketConsumers.HandlePacket` | src-api/rfc5444/rfc5444_reader.c:191-248 | what is planned for a packet is followed up to the first event that drops something; then exactly the consumers that were started are ended, the last one first, and told whether something was dropped; to the caller a dropped packet is OKAY, and any other result is passed on |
| `PacketConsumers.TlvsExactly` | src-api/rfc5444/rfc5444_reader.c:206-220 | in any trace: a consumer gets the TLVs of the packet if and only if there are some, it has a callback for them, and it was started and did not object; at most once, and directly behind its start |
| `PacketConsumers.StartsExactly` | src-api/rfc5444/rfc5444_reader.c:191-220 | in any trace: a consumer is started if and only if it is the first, or the one before it was started and neither of its callbacks objected |
| `PacketConsumers.FirstHandled` | src-api/rfc5444/rfc5444_reader.c:222-226 | in any trace: the messages are begun if and only if there are some and no consumer objected |
| `PacketConsumers.OutcomeExactly` | src-api/rfc5444/rfc5444_reader.c:196-226 | the result in front of the ends is the answer of the last callback, a dropped TLV counting as OKAY, or what the last message came to, a dropped message counting as OKAY |
| `PacketConsumers.EndsBehind` | src-api/rfc5444/rfc5444_reader.c:228-239 | in any trace: the ends are behind everything else, from the last consumer that was started down to the first, and are told whether something was dropped |
| `PacketConsumers.CutOnce` | src-api/rfc5444/rfc5444_reader.c:191-225 | there is only one place where a packet can be cut off, so the callbacks that happen are determined |
| `PacketConsumers.StartedEnds` | docs/rfc5444/rfc5444_dropcontext.txt:58-61 | wherever a packet is cut off, a consumer is ended if and only if it was started |
| `PacketConsumers.NextHandled` | src-api/rfc5444/rfc5444_reader.c:222-226 | the message behind a handled one is handled if and only if the result of that one is OKAY or DROP_MESSAGE |
| `PacketConsumers.ForwardingDropsTheRest` | docs/rfc5444/rfc5444_dropcontext.txt:38-43 | a message dropped with DROP_MSG_BUT_FORWARD takes the rest of its packet with it, which the documentation does not say |

## Left out

- RegexLarge.Matcher: does not fill in the offsets of subexpressions, which `dissect`
  finds; a start and an end from the caller are cut out of the text before, by
  `Regex.ExecuteRange`.
- RegexSmall.Matcher: the same.
- Anchors, word boundaries, back references, subexpression offsets, collating and
  equivalence classes, and the flags for case, newlines, basic expressions and
  partial text: they are reported as unmodelled by the parser, or are no parameter.
- Addresses.AddressRoundTrip: takes any partition into blocks whose addresses share the
  head that is written; which partition `_compress_address` chooses, by counting
  octets, is not modelled, nor are mandatory addresses, which are repeated in every
  fragment, and two TLVs of one type on one address.
- Packets.Target.SendAll: there is one target, and what its handlers do is a function
  of the number of the packet.
- Schedule.ScheduleTlvBlock: the chain of TLVs of an entry is a list of indices, copying
  a value into a private buffer is left out, and the TLV callback answers to a TLV in
  the same way each time it is called with it.
- Consumers.ScheduleConsumers: callbacks are a function of what has happened to the
  message; forwarding of messages is left out.
- Allocation failures, and the growth and trimming of the strip.
- The categories of characters, which nothing in the matcher uses.
- Timers and expiry of duplicate set entries, and how the entries are kept in a tree:
  they are in a map here.
- The iteration macros of lists and trees, and merging lists.
- I/O, sockets, interfaces, plugins, logging, the clock, configuration and text output.
