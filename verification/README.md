# Squid: tables, trees, pipes and codecs

This project models self-contained algorithmic cores of the Squid proxy and proves what they promise.
`dafny verify dfyconfig.toml` checks all of it.

| files | source | what is modelled |
|---|---|---|
| `radix_bits.dfy`, `radix_trie.dfy`, `radix_growth.dfy`, `radix_image.dfy`, `radix.dfy`, `radix_routes.dfy`, `radix_masks.dfy`, `radix_addroute.dfy`, `radix_promote.dfy`, `radix_build.dfy` | `lib/radix.c` | the Patricia routing tree: insertion, mask interning, route addition, longest-prefix match, and any list of additions |
| `splay_nodes.dfy`, `splay_cost.dfy`, `splay.dfy`, `splay_runs.dfy` | `include/splay.h` | the top-down splay tree as an ordered set, what it costs over any run of calls, and its iterator |
| `bodypipe.dfy`, `bodypipe_class.dfy` | `src/BodyPipe.cc`, `src/BodyPipe.h` | the protocol between body producer and consumer |
| `hash.dfy` | `lib/hash.cc` | the hash table whose walk survives removals |
| `heap.dfy` | `lib/heap.c` | the binary heap with stable handles |
| `inet.dfy`, `inet_parse.dfy` | `compat/inet_ntop.cc`, `compat/inet_pton.cc` | IPv4 and IPv6 addresses as text and back, with a grammar of the texts |
| `base64.dfy`, `base64_decode.dfy` | `lib/base64.c` | Base 64 in one go and in pieces |
| `md5.dfy` | `lib/md5.c` | buffering, counting and padding around MD5 |
| `des.dfy` | `lib/encrypt.c` | DES enciphering, deciphering and key schedule |
| `delay.dfy` | `src/DelayVector.cc`, `src/DelayBucket.cc` | token buckets and their composition |
| `basics.dfy`, `arithmetic.dfy` | | bytes, options, joined pieces, quotient and remainder, shared |

## How the parts are built

**Routing tree.** `RadixTrie.Tree` is the tree as a value, with the node objects in it. All meaning is stated on it: the
Patricia invariant at lib/radix.c:117-149, which routes apply to a key, and that the annotation lists of the internal
nodes are exact (`MarksOK`: each node lists, most specific first, exactly the routes below it that apply at it and not at
its parent). The classes hold the pointers; `Head.Valid` and `RouteTable.Valid` say that the memory is the picture of
that tree. A new table is valid (`RouteTable.constructor`, `MaskTable.constructor`), `AddRoute` keeps it valid and adds
exactly one route, and `Match` on a valid table is a linear scan over the routes. `RadixBuild.Build` runs any list of
additions from the two empty trees, and `RadixBuild.Answer` states the match theorem for what they leave. Both char
signedness variants of the normality test are covered (`MaskTable.signedChar`), and with them both branches of the
match loop.

**Splay tree.** The loop state is two spines hanging from the sentinel and a tree still to be searched. Every rotate,
link and assemble step is proved to keep the whole in-order sequence, for any comparison function. `SplayCost.Brought`
says recursively which tree a splay leaves, and `SplayTree.Splay` is proved to leave it. On it rest the laws of shape: the
search path is about halved (`DepthHalved`, `StraightHalved`), and comparisons are paid for by a potential (`Access`), so
that any run of calls is logarithmic on average (`SplayRuns.Serve`). The global through which the outcome of a comparison
travels is the object `LastResult`, which also counts the comparisons.

**Body pipe.** `Pipe` is the state with the log of scheduled calls, attachments numbered in it; each operation is a
function from state to state, and the class in `bodypipe_class.dfy` takes exactly these steps, keeps the invariant of
orderly runs (`BodyPipe.Sound`) and states what each call does for its caller. Assertions of the code are the enabling
conditions of a step; exceptions leave the state as it was. A pointer to a job can be set and yet invalid when the job
is gone: any job may die at any time (`DoDie`). An orderly run is one in which producer calls come from the live
producer, as src/BodyPipe.h:115 asks, and a checked-out buffer is either appended to or consumed from, as
src/BodyPipe.h:58-60 asks. Without the first part three promises fail: `TwoEnds`, `FalseEnd` and `DataAfterEnd` give
runs, and `ClearDeadProducer`, `ClearDeadTells` and `PutTooLate` say exactly when, in terms of the run: of who was
attached when the producer died or left (`Late` collects the attachments made too late). What auto-consumption promises
is in `AutoStarts`, `DrainsIff` and `RunDrains`.

**Codecs.** The loops are proved against independent definitions: groups of 24 bits for Base 64, the leftmost longest
zero run and a grammar of address texts for IPv6, the padded message of RFC 1321 for MD5. Methods that feed any list of
pieces to a context (`EncodePieces`, `DecodePieces`, `Digest`) state the results for every way of cutting the input. The
compression function of MD5, the S-boxes, the expansion table and the permutation P of DES are parameters, so the
results hold for any of them. What fixes the constants on both sides of a round trip is stated on its own: the alphabet
and the examples of RFC 4648, the initial state of RFC 1321, the digits of either case, the tables of DES, and that key
and block enter its rounds together (`Complementation`).

## Where the code and its documentation differ

- include/splay.h:379 wonders whether the iterator visits everything: it does exactly when the leftmost node has no
  right child (`SplayTree.WholeIff`, with `SplayTree.SkipsLarger` for a set where it does not).
- lib/base64.c:114 speaks of at most two padding characters: a third one is accepted after a null group, and nothing
  else is accepted beyond encodings (`Base64Decode.AcceptedExactly`).
- lib/radix.c:287 and the lines after it return a root leaf for an all-zero or all-one key that has no route of its own:
  this is the one case in which `Match` is not the linear scan (`RadixBuild.Answer`, with `RadixBuild.HiddenDefault` for
  a table where a route applies).
- compat/inet_pton.cc:180 says that a double colon in a full address is ignored: such a text is refused
  (`InetParse.Exactly6`).
- compat/inet_ntop.cc:221 tests for a run of seven words at word 6, which such a run covers: that case is never reached.
- src/BodyPipe.h:166 promises to keep the buffer empty when producing without a consumer: a consumer that dies, or leaves
  before it has consumed, strands the data until more is put (`BodyPipes.RunDrains`, with `BodyPipes.Stranded`).
- lib/heap.c:182 promises the largest key from heap_extractmin: it is the least.

## Model

| member | source | states |
|---|---|---|
| `RadixTrie.SearchReachesStored` | lib/radix.c:151-163 | A descent that follows the key bits ends at the chain of an equal key whenever one is stored, in every tree with the Patricia invariant |
| `RadixTrie.FoundChainComplete` | lib/radix.c:570-608 | Every stored route with a given key is in the one duplicate-key chain the search reaches |
| `RadixTrie.ClimbSound` | lib/radix.c:133-143 | Every route listed on the way up applies to the key looked up |
| `RadixTrie.ClimbComplete` | lib/radix.c:133-143 | Every route that applies to the key, other than those of the chain reached, is listed on the way up |
| `RadixTrie.BestIsLinearScan` | lib/radix.c:244-341 | A best match (one that applies and is more specific than all others that apply) is unique and is what a linear scan over all routes computes |
| `RadixTrie.FirstInClimb` | lib/radix.c:315-339 | The first listed route that applies, bottom node first and most specific first at each node, is the best of the routes above the leaf |
| `RadixTrie.NothingFound` | lib/radix.c:300-340 | When neither the chain nor any list yields a route, no stored route applies |
| `RadixGrowth.GraftPatricia` | lib/radix.c:399-427 | Splitting at the first differing bit keeps the Patricia invariant: keys below a node agree before its index, both bit values occur at it, indexes increase downwards |
| `RadixGrowth.GraftKeys` | lib/radix.c:414-427 | The split adds exactly the new key, route and two nodes |
| `RadixGrowth.GraftMarks` | lib/radix.c:632-653 | When the new node takes over the annotations that apply at it, the annotations of the whole tree are again exact |
| `RadixGrowth.LiftMarks` | lib/radix.c:655-692 | Listing a new route at the highest node of its path with a large enough index makes the annotations exact for one route more |
| `RadixGrowth.MaskedSearchFinds` | lib/radix.c:165-178 | The descent that masks the key bits reaches the chain of the masked key if that key is stored below |
| `RadixImage.GraftImage` | lib/radix.c:414-427 | The pointer changes of the split are exactly those that turn the picture of the old tree into that of the new one |
| `RadixBits.FirstDifference` | lib/radix.c:383-398 | The byte loop and the shift loop find the index of the first differing bit, or report that all compared bytes are equal |
| `Radix.Head.constructor` | lib/radix.c:910-938 | The new head is a valid tree with the all-zero and the all-one root leaves |
| `Radix.Relink` | lib/radix.c:350-427 | The four nodes a split touches (the node above, the node below, the new internal node and the new leaf) then hold exactly what the picture of the grown tree says of them |
| `Radix.Head.Search` | lib/radix.c:151-163 | The pointer loop returns the head of the chain that the descent along the key bits reaches |
| `Radix.Head.SearchM` | lib/radix.c:165-178 | The masked pointer loop returns the head of the chain that the masked descent reaches |
| `Radix.Head.Insert` | lib/radix.c:371-434 | A duplicate is reported exactly when the key is stored, and then nothing changes; otherwise the tree is the old one split at the first differing bit, with all child and parent links of a valid tree |
| `Radix.Head.LinkAfter` | lib/radix.c:604-608 | Linking behind a chain member puts the route at that place of the chain and keeps all other links |
| `Radix.Head.LinkFirst` | lib/radix.c:591-603 | Linking at the head of a chain puts the route first and makes it the child of the old parent |
| `RadixRoutes.SatisfiesLeaf` | lib/radix.c:224-242 | The byte-wise masked comparison decides exactly whether the route of the leaf applies to the key |
| `RadixRoutes.RouteTable.constructor` | lib/radix.c:910-938 | A new table is valid and holds no routes |
| `RadixRoutes.RouteTable.InChain` | lib/radix.c:300-312 | The walk along the duplicate-key chain returns its first route that applies, or none if none does |
| `RadixRoutes.RouteTable.TestMark` | lib/radix.c:326-336 | One annotation is decided correctly on the normal path (mask index) and on the non-normal path (masked search and comparison) |
| `RadixRoutes.RouteTable.InNode` | lib/radix.c:318-338 | The list of one node yields its first route that applies, or none if none does |
| `RadixRoutes.RouteTable.InAncestors` | lib/radix.c:313-340 | The ascent yields the first route that applies on any list between the leaf and the top, or none if none does |
| `RadixRoutes.RouteTable.Match` | lib/radix.c:244-341 | On a valid table the one descent and one ascent return exactly the most specific route that applies, equal to a linear scan over all routes; only an all-zero or all-one key without a route of its own returns a root leaf |
| `RadixMasks.Refines` | lib/radix.c:180-204 | For any two stored masks the loops decide whether the first has all the ones of the second and more |
| `RadixMasks.RefinesRuns` | lib/radix.c:180-204 | For contiguous masks, to refine is to have more ones |
| `RadixMasks.LexoBetter` | lib/radix.c:507-519 | For contiguous masks the comparison is true exactly when the first has more ones |
| `RadixMasks.MaskTable.constructor` | lib/radix.c:940-969 | The mask tree starts empty with a zeroed buffer |
| `RadixMasks.MaskTable.Fill` | lib/radix.c:452-469 | The buffer holds the trimmed mask with its length first, and everything behind it is zero, whatever earlier masks left there |
| `RadixMasks.MaskTable.Index` | lib/radix.c:490-503 | The index loops compute the number of leading ones, and normality is as signed or unsigned char comparison decides |
| `RadixMasks.MaskTable.AddMask` | lib/radix.c:436-505 | A contiguous mask is interned once: the leaf returned is the one that stands for its index, ones within the skipped bytes count as the zero mask, and search mode changes nothing and fails exactly when the mask is not interned |
| `RadixAddRoute.FindSpot` | lib/radix.c:570-580 | The chain loop stops at the duplicate mask, or at the place that keeps the chain ordered from most to least specific |
| `RadixAddRoute.Join` | lib/radix.c:570-628 | A route whose key is stored is refused exactly when its mask is in the chain; otherwise it is linked at its place and the head of the chain is returned |
| `RadixAddRoute.AddToList` | lib/radix.c:521-540 | A new annotation stands for the route of its leaf, the leaf points at it, and it is in the list of one node at the given place; every other list, link and annotation stays |
| `RadixAddRoute.NoTwin` | lib/radix.c:674-687 | No annotation at the node where a new route belongs has the same mask index |
| `RadixAddRoute.FindPlace` | lib/radix.c:663-690 | The list loop finds the place that keeps the list ordered from most to least specific |
| `RadixAddRoute.Annotate` | lib/radix.c:691-692 | An annotation is linked into a list; all lists, leaf pointers and other links stay consistent |
| `RadixAddRoute.ClimbTo` | lib/radix.c:656-662 | The climb ends at the highest node of the path whose index is at least that of the mask |
| `RadixAddRoute.Lift` | lib/radix.c:654-693 | The new route is listed where it belongs, or nowhere when it cannot be lifted, and the annotations are exact for all routes |
| `RadixAddRoute.StoreKey` | lib/radix.c:566-628 | Storing the key reports a stored one unchanged, or leaves the split tree with an unannotated new node |
| `RadixPromote.PromoteTest` | lib/radix.c:639-643 | The test of the promotion loop holds exactly for the routes of the chain that apply at the new node and are listed nowhere above |
| `RadixPromote.PromoteChain` | lib/radix.c:638-643 | Promoting from a leaf chain makes the annotations exact for the old routes in the split tree |
| `RadixPromote.PromoteList` | lib/radix.c:644-653 | Splitting the list of an internal node makes the annotations exact for the old routes in the split tree |
| `RadixPromote.Promote` | lib/radix.c:629-653 | Either promotion, chosen by the kind of the sibling node, restores exact annotations |
| `RadixPromote.AddRoute` | lib/radix.c:542-693 | A route is refused exactly when one with the same key and mask is stored; otherwise the table holds exactly one route more. Both trees stay valid and grow by the nodes handed over and by new objects only, so that the next call can be made |
| `RadixBuild.Build` | lib/radix.c:542-693 | Any list of addroute calls on the two empty trees leaves exactly the accepted routes in the table; a call is refused exactly when the same route was accepted before or a root leaf stands for it |
| `RadixBuild.Answer` | lib/radix.c:244-341 | After any list of addroute calls the match on any key is the linear scan over the accepted calls if and only if no root leaf is in the way; then the root leaf is returned |
| `RadixBuild.HiddenDefault` | lib/radix.c:287-289 | With a default route as the only one, the all-one address is answered by the root leaf |
| `SplayTree.RotateRight` | include/splay.h:216-224 | The rotation to the right is linked as the rotated tree |
| `SplayTree.RotateLeft` | include/splay.h:231-239 | The rotation to the left is linked as the rotated tree |
| `SplayTree.RotateRightKeeps` | include/splay.h:216-224 | The rotation keeps the nodes and their in-order sequence |
| `SplayTree.RotateLeftKeeps` | include/splay.h:231-239 | The rotation keeps the nodes and their in-order sequence |
| `SplayTree.GoLeft` | include/splay.h:212-228 | One turn to the left is one turn of the splay: with a rotation exactly when the search goes on to the left, it keeps the whole in-order sequence, makes the tree still to be searched smaller and the right spine stay above the key, and stops only with the outcome for the new top recorded |
| `SplayTree.GoRight` | include/splay.h:229-245 | The mirror image of GoLeft |
| `SplayTree.Assemble` | include/splay.h:251-255 | The four assignments hang the remaining subtrees and both spines below the top as one linked tree |
| `SplayTree.AssembledKeeps` | include/splay.h:251-255 | The assembled tree has every node once, in the same order, with the nodes below the key on the left and those above on the right |
| `SplayTree.Splay` | include/splay.h:197-257 | For any comparison the loop ends in the tree that the recursive description of splaying gives, after as many comparisons, keeps nodes and in-order sequence, and records the comparison of the key with the new top; on a search order everything left of the top is below the key and everything right above it |
| `SplayCost.DepthHalved` | include/splay.h:197-257 | Every node of the search path ends at a depth d with 2 * d <= i + 4 if it was at depth i, and the last one on top |
| `SplayCost.StraightHalved` | include/splay.h:216-239 | A search m steps straight down one side leaves a chain of (m + 1) / 2 nodes, and what hung on the end of it, on the other side of the top |
| `SplayCost.Access` | include/splay.h:197-257 | The comparisons of a splay and four times the gain in potential are at most 12 * log2(size) + 4, for every tree and every comparison |
| `SplayRuns.Serve` | include/splay.h:147-323 | Any run of m find, insert and remove calls on an empty set: every find answers by the last insert or remove of that value, and all calls together make at most m * 3 * (12 * log2(m + 1) + 4) comparisons, however deep single searches are |
| `SplayTree.SortedMonotone` | include/splay.h:112-120 | In a sorted tree comparing any key gives positive, then at most one zero, then negative outcomes |
| `SplayTree.MemberIff` | include/splay.h:282-296 | After a splay the key is a member exactly when it compares equal to the top |
| `SplayTree.InsertAt` | include/splay.h:172-195 | A new node is put in at its place in the order and becomes the top; a duplicate changes nothing; the comparisons are paid for by the potential and a logarithmic fee |
| `SplayTree.RemoveAt` | include/splay.h:147-170 | The equal element is taken out and the two halves are joined without losing another, because the splayed left half ends at its top; the comparisons are paid for by the potential and two logarithmic fees |
| `SplayTree.HalfEndsRight` | include/splay.h:158-162 | A splay of the left half on the removed key leaves nothing right of its top |
| `SplayTree.SplaySet.Find` | include/splay.h:282-296 | The members stay as they are; a node is found exactly when the key is a member, and it is the new head |
| `SplayTree.SplaySet.Insert` | include/splay.h:298-310 | Sorted stays sorted, a duplicate is ignored, any other value is put in once, and the element count follows |
| `SplayTree.SplaySet.Remove` | include/splay.h:312-323 | Sorted stays sorted, an absent key changes nothing, a present one is taken out once, and the element count follows |
| `SplayTree.SplaySet.Size` | include/splay.h:357-362 | The cached count is the number of members |
| `SplayTree.RemoveUndoesInsert` | include/splay.h:298-323 | Removing a value that was just inserted gives the old members back |
| `SplayTree.OnePlace` | include/splay.h:172-195 | The order leaves exactly one place for a new member |
| `SplayTree.Start` | include/splay.h:112-120 | The leftmost node is the first in order |
| `SplayTree.Finish` | include/splay.h:122-130 | The rightmost node is the last in order |
| `SplayTree.Visit` | include/splay.h:262-271 | Every value is visited once, from left to right |
| `SplayTree.FreshYields` | include/splay.h:462-480 | A new iterator yields the in-order sequence without the right subtree of the leftmost node |
| `SplayTree.WholeIff` | include/splay.h:379-380 | It enumerates the whole set exactly when the start() node has no right child |
| `SplayTree.SkipsLarger` | include/splay.h:462-480 | A smaller element inserted after a larger one: the iterator returns the smaller one only |
| `SplayTree.ConstIterator.constructor` | include/splay.h:397-402 | The nodes to come are the in-order sequence without the right subtree of the leftmost node |
| `SplayTree.ConstIterator.Advance` | include/splay.h:441-460 | Advancing drops exactly the first of the nodes to come |
| `SplayTree.ConstIterator.Current` | include/splay.h:482-492 | Dereferencing gives the first of the nodes to come |
| `SplayTree.ConstIterator.AtEnd` | include/splay.h:404-414 | The iterator equals end() exactly when no node is to come |
| `BodyPipes.RunNotices` | src/BodyPipe.cc:193-291 | In every orderly run there is at most one end notification per attachment and exactly one for a live consumer once the producer has left, all data notifications come before it, "production ended" is sent exactly when the size is known and fully put, and noteBodyConsumerAborted is sent at most once with no regular consumer after it |
| `BodyPipes.RunBytes` | src/BodyPipe.cc:293-410 | In every orderly run consumed bytes followed by the buffer are the accepted bytes, and get size <= put size <= known body size |
| `BodyPipes.RunKeeps` | src/BodyPipe.cc:167-177 | The invariants hold in every state of every orderly run, and a pipe once exhausted stays exhausted |
| `BodyPipes.NoticesStep` | src/BodyPipe.cc:193-442 | Every operation keeps the notification invariant |
| `BodyPipes.ConservedStep` | src/BodyPipe.cc:293-410 | Every operation keeps the byte accounts |
| `BodyPipes.ExhaustedStep` | src/BodyPipe.cc:167-177 | No operation revives an exhausted pipe |
| `BodyPipes.ClearProducerKeeps` | src/BodyPipe.cc:193-210 | Clearing a live producer sends the current attachment its one end notification |
| `BodyPipes.SetConsumerKeeps` | src/BodyPipe.cc:227-251 | Attaching a consumer, early or late, keeps the notification invariant |
| `BodyPipes.SetConsumerHears` | src/BodyPipe.cc:227-251 | A live consumer that attaches is sent a data notification when the buffer holds data and then, when no live producer is left, its end, and nothing else |
| `BodyPipes.GiveUpKeeps` | src/BodyPipe.cc:266-291 | Giving up consumption keeps the notification invariant |
| `BodyPipes.GiveUpTells` | src/BodyPipe.cc:266-291 | The calls it makes: none when it was given up before, the pipe is exhausted or a live consumer is there; otherwise the producer is told, and a sink attaches and hears of the data exactly when auto-consumption is on, the producer is alive and data is there |
| `BodyPipes.AutoStarts` | src/BodyPipe.cc:326-340 | Exactly when auto-consumption is on, no consumer and a live producer are there and the buffer holds data, a sink attaches and is sent a data notification; afterwards such a pipe has a live consumer |
| `BodyPipes.PutTakes` | src/BodyPipe.cc:212-225 | A put fills the buffer up to 65535 bytes and a known size up to that size: what it does not accept would not fit; the calls it makes are the data notification, the end at a known size, or a new sink and its data notification |
| `BodyPipes.ConsumeOffers` | src/BodyPipe.cc:378-391 | Consuming offers the producer space exactly while the size is unknown or not fully put |
| `BodyPipes.DrainsIff` | src/BodyPipe.cc:315-340 | An orderly action leaves a pipe that consumes by itself with data, a live producer and no live consumer exactly when, while data waits, the consumer dies, leaves before it has consumed, or leaves after consumption was given up |
| `BodyPipes.RunDrains` | src/BodyPipe.cc:315-410 | In every orderly run such a pipe always has a live consumer while data waits if and only if no action of the run is one of these |
| `BodyPipes.Stranded` | src/BodyPipe.cc:253-264 | A consumer that leaves before it has consumed leaves the data in the buffer of an auto-consuming pipe |
| `BodyPipes.CheckInBytes` | src/BodyPipe.cc:350-360 | A checked-out buffer that was only appended to or only consumed from comes back without a byte lost or duplicated |
| `BodyPipes.EndsExactly` | src/BodyPipe.cc:193-251 | In every run, orderly or not, the attachments that are sent an end are exactly those that were there, alive, when the producer left, and those that a live consumer made after the producer had left or died |
| `BodyPipes.ClearDeadProducer` | src/BodyPipe.cc:193-210 | After an orderly run, clearing a producer that is set but dead keeps every attachment at one end if and only if the present consumer, when alive, attached before the death |
| `BodyPipes.ClearDeadTells` | src/BodyPipe.cc:193-210 | It keeps every end true if and only if it does not settle an unknown size, or no live consumer attached after the death |
| `BodyPipes.PutTooLate` | src/BodyPipe.cc:212-225 | After an orderly run, a put without a live producer keeps data before the end if and only if it accepts nothing, or the present consumer is not alive, or it attached to a producer that is only dead, before the death |
| `BodyPipes.TwoEnds` | src/BodyPipe.cc:247-248 | A producer that dies before a consumer attaches and is cleared afterwards ends that attachment twice |
| `BodyPipes.FalseEnd` | src/BodyPipe.cc:203-208 | If that consumer left in between, its end says aborted although the size is known and fully put |
| `BodyPipes.DataAfterEnd` | src/BodyPipe.cc:212-225 | A producer that has left and puts a byte sends data after the end |
| `BodyPipes.NoCallAfterStop` | src/BodyPipe.cc:88-102 | In every later run in which it does not attach again, a consumer that stopped consuming cannot be dialled |
| `BodyPipes.NoCallAfterClear` | src/BodyPipe.cc:72-86 | In every later run no producer can be dialled once the producer was cleared |
| `BodyPipeObject.BodyPipe.constructor` | src/BodyPipe.cc:128-137 | The new pipe is the fresh state, and sound: its notices and byte accounts are those of an orderly run |
| `BodyPipeObject.BodyPipe.SetBodySize` | src/BodyPipe.cc:147-159 | From now on the pipe is exhausted exactly when that many bytes were consumed, and needs more exactly while fewer were accepted; it stays sound |
| `BodyPipeObject.BodyPipe.ExpectProductionEndAfter` | src/BodyPipe.cc:184-191 | Throws exactly when a known size differs; otherwise exactly the given number of bytes is still unproduced; it stays sound |
| `BodyPipeObject.BodyPipe.ScheduleBodyDataNotification` | src/BodyPipe.cc:412-422 | A valid consumer is sent a data notification, and nothing else changes |
| `BodyPipeObject.BodyPipe.ScheduleBodyEndNotification` | src/BodyPipe.cc:424-442 | A valid consumer is told that production ended, exactly when the size is known and fully put, or that it was aborted, and nothing else changes |
| `BodyPipeObject.BodyPipe.ClearProducer` | src/BodyPipe.cc:193-210 | The producer is gone, a live consumer has been sent exactly one end, and the pipe stays sound |
| `BodyPipeObject.BodyPipe.PutMoreData` | src/BodyPipe.cc:212-225 | The accepted bytes and the buffer grow by the first n bytes, all unless a known size is reached or the buffer is full at 65535; none is consumed; the calls made are listed, an auto-consuming pipe that accepted data and keeps its producer has a live consumer, and the pipe stays sound |
| `BodyPipeObject.BodyPipe.SetConsumerIfNotLate` | src/BodyPipe.cc:227-251 | Attaches exactly when nothing was consumed and consumption was not given up, throws exactly in the second case, and a live consumer then hears what it should; it stays sound |
| `BodyPipeObject.BodyPipe.ClearConsumer` | src/BodyPipe.cc:253-264 | No regular consumer is left; one that has consumed leaves consumption given up or the pipe exhausted, otherwise no call is made; the pipe stays sound |
| `BodyPipeObject.BodyPipe.ExpectNoConsumption` | src/BodyPipe.cc:266-291 | Throws exactly when a live consumer is attached to a pipe that can still deliver; otherwise consumption is given up or the pipe is exhausted; the producer is told exactly when this is new, and a sink attaches exactly when one is needed; it stays sound |
| `BodyPipeObject.BodyPipe.GetMoreData` | src/BodyPipe.cc:293-306 | As many bytes as fit are handed out from the front of the buffer and continue the bytes consumed before; space is offered exactly while more may be needed; the pipe stays sound |
| `BodyPipeObject.BodyPipe.Consume` | src/BodyPipe.cc:308-313 | The front of the buffer joins the bytes consumed before; space is offered exactly while more may be needed; the pipe stays sound |
| `BodyPipeObject.BodyPipe.EnableAutoConsumption` | src/BodyPipe.cc:315-321 | From now on the pipe consumes by itself: with a live producer and data in the buffer a live consumer is there; it stays sound |
| `BodyPipeObject.BodyPipe.StartAutoConsumptionIfNeeded` | src/BodyPipe.cc:326-340 | Exactly under the four conditions a sink becomes the consumer and is sent a data notification; otherwise nothing changes; it stays sound |
| `BodyPipeObject.BodyPipe.CheckOut` | src/BodyPipe.cc:342-348 | Remembers the content that is checked out and stays sound |
| `BodyPipeObject.BodyPipe.CheckIn` | src/BodyPipe.cc:350-360 | Whatever the holder appended is accepted and whatever it took out is consumed: consumed bytes followed by the buffer are the accepted ones; it stays sound |
| `BodyPipeObject.BodyPipe.PostConsume` | src/BodyPipe.cc:378-391 | Counts consumed bytes, offers space exactly while the size is unknown or not fully put, and the pipe is sound again |
| `BodyPipeObject.BodyPipe.PostAppend` | src/BodyPipe.cc:393-410 | Counts appended bytes, notifies, ends production at a known size, and may start auto-consumption, in this order; the pipe is sound again |
| `BodyPipeObject.BodyPipe.Promises` | src/BodyPipe.cc:193-410 | A sound pipe has consumed a prefix of the accepted bytes, within a known size, has sent each attachment at most one end, exactly one to a live consumer once the producer has left, and has given up consumption at most once |
| `BodyPipeObject.Drive` | src/BodyPipe.cc:128-410 | The object follows every orderly run: it ends in the state of the run, sound |
| `HashTables.HashTable.constructor` | lib/hash.cc:108-124 | An empty table of the given or the default size |
| `HashTables.HashTable.Join` | lib/hash.cc:131-139 | The link is put into its bucket; during a walk it is among the links still to be returned exactly when its bucket is after the current one; the count grows by one |
| `HashTables.HashTable.Lookup` | lib/hash.cc:146-162 | The first link of the key's bucket that compares equal, or none when no link of that bucket does |
| `HashTables.HashTable.NextBucket` | lib/hash.cc:164-169 | The cursor moves so that exactly the links of the later buckets remain |
| `HashTables.HashTable.First` | lib/hash.cc:175-183 | All links remain to be returned |
| `HashTables.HashTable.Next` | lib/hash.cc:191-201 | Returns the first remaining link, and the others remain; nothing when none remains |
| `HashTables.HashTable.Last` | lib/hash.cc:207-213 | Nothing remains |
| `HashTables.HashTable.RemoveLink` | lib/hash.cc:223-241 | The link leaves its bucket and, if it was still to be returned, the rest of the walk, in which the others keep their order; the count falls by one |
| `HashTables.HashTable.FreeItems` | lib/hash.cc:255-269 | Every link is freed exactly once, in walk order |
| `HashTables.WalkStepKeeps` | lib/hash.cc:191-241 | Returning or removing a link keeps a walk fair, and every link returned shortens it |
| `HashTables.WalkThrough` | lib/hash.cc:175-241 | hash_first, then hash_next and hash_remove_link on the table in any order: no link is returned twice or after its removal, and when the walk is over every link still in the table was returned exactly once |
| `HashTables.TableNoRepeat` | lib/hash.cc:131-139 | The walk order of a table has no repetition |
| `HashTables.Hash4` | lib/hash.cc:50-99 | The unrolled loop computes times 33 plus character modulo 2^32, reduced to the table size |
| `Heaps.RootIsLeast` | lib/heap.c:187-203 | In heap order the root is a global minimum |
| `Heaps.SiftUp` | lib/heap.c:351-362 | Demoting a greater parent moves the only disorder up |
| `Heaps.SiftDown` | lib/heap.c:318-346 | Promoting the smaller child moves the only disorder down |
| `Heaps.Heap.constructor` | lib/heap.c:71-88 | An empty heap of the given or the minimal size |
| `Heaps.Heap.Swap` | lib/heap.c:367-375 | Two nodes change places and back-indexes; every handle still finds itself |
| `Heaps.Heap.IfyUp` | lib/heap.c:351-362 | Order is restored when only the node may be too small |
| `Heaps.Heap.IfyDown` | lib/heap.c:318-346 | Order is restored when only the node may be too great |
| `Heaps.Heap.Grow` | lib/heap.c:404-422 | The array grows by the stated factor, contents kept |
| `Heaps.Heap.Insert` | lib/heap.c:116-134 | Order and handles are kept, and the contents gain exactly the new node |
| `Heaps.Heap.Delete` | lib/heap.c:141-165 | Order and handles are kept, and the contents lose exactly the given node, wherever it is |
| `Heaps.Heap.ExtractLast` | lib/heap.c:209-218 | The last node leaves, the others stay in place |
| `Heaps.Heap.ExtractMin` | lib/heap.c:187-203 | A node with the least key leaves and its data is returned; none for an empty heap |
| `Heaps.Heap.Drain` | lib/heap.c:187-203 | Extracting until the heap is empty yields every node once, by nondecreasing key |
| `Heaps.Heap.Update` | lib/heap.c:227-242 | Order and handles are kept, and only the given node changes key and data |
| `Heaps.UpdateIsDeleteInsert` | lib/heap.c:220-226 | As a multiset of keys and data, an update is a deletion and an insertion |
| `Heaps.Heap.PeepMinKey` | lib/heap.c:256-261 | The key of the root is the least key |
| `Heaps.Heap.VerifyHeapProperty` | lib/heap.c:454-474 | True exactly when the array is in heap order |
| `InetText.Ntop4` | compat/inet_ntop.cc:136-148 | A text that inet_pton4 reads back as the address, or nothing exactly when the dotted quad does not fit; sixteen characters always suffice |
| `InetText.Pton4` | compat/inet_pton.cc:133-171 | A text is read as b exactly when it is the dotted quad of b without leading zeros |
| `InetText.Exactly4` | compat/inet_pton.cc:133-171 | The parsing function accepts exactly the dotted quads |
| `InetText.RoundTrip4` | compat/inet_pton.cc:133-171 | Parsing a dotted quad gives its four bytes back |
| `InetText.ToWords` | compat/inet_ntop.cc:176-178 | The words hold the bytes of the address |
| `InetText.FindBest` | compat/inet_ntop.cc:179-202 | The loop finds the leftmost longest run of zero words if it has at least two |
| `InetText.BestUnique` | compat/inet_ntop.cc:179-202 | That run is determined by the address |
| `InetText.TextFits` | compat/inet_ntop.cc:168-168 | Every text fits the buffer, so nothing is cut off |
| `InetText.PiecesText` | compat/inet_ntop.cc:207-236 | The pieces written word by word and the trailing colon make the compressed text |
| `InetText.Ntop6` | compat/inet_ntop.cc:156-245 | The text of the address with its best run shortened and an embedded IPv4 address dotted, or nothing when it does not fit |
| `InetText.HexDigits` | compat/inet_pton.cc:189-207 | A character has the value d below 16 exactly when it is the digit d of 0123456789abcdef or of 0123456789ABCDEF |
| `InetText.HexShape` | compat/inet_ntop.cc:228-228 | A word is written in lower case without leading zeros |
| `InetText.EmbeddedIff` | compat/inet_ntop.cc:219-227 | A dotted quad is written exactly after five zero words and ffff, or after six zero words with something behind them |
| `InetText.TextShape` | compat/inet_ntop.cc:156-245 | The text has only lower-case digits, colons and dots, and dots exactly for those addresses |
| `InetParse.OpenGap` | compat/inet_pton.cc:253-264 | The backward loop moves what follows the double colon to the end and clears where it was |
| `InetParse.Pton6` | compat/inet_pton.cc:186-270 | A text is read as b exactly when it is a text of b by section 2.2 of RFC 4291: eight groups of one to four hexadecimal digits, the last two possibly as a dotted quad, with at most one double colon that stands for one group of zeros or more |
| `InetParse.Exactly6` | compat/inet_pton.cc:186-270 | The parsing function accepts exactly the texts of that grammar, each with its value |
| `InetParse.GroupBytes` | compat/inet_pton.cc:228-232 | The two bytes stored for a group hold its whole number |
| `InetParse.CaseBlind` | compat/inet_pton.cc:189-207 | A text and its lower-case form are texts of the same addresses |
| `InetParse.RoundTrip6` | compat/inet_pton.cc:186-270 | Whichever run of zero words was shortened, and with or without a dotted quad, parsing gives the address back |
| `InetParse.RoundTrip` | compat/inet_ntop.cc:156-245 | inet_pton6 undoes inet_ntop6 for every address |
| `Base64.EncodeRaw` | lib/base64.c:168-209 | Writing backwards gives the encoding of the whole input and touches nothing else |
| `Base64.EncodeOver` | lib/base64.c:168-209 | The same within one memory: input and output may overlap whenever the input does not start after the output |
| `Base64.PartsAre` | lib/base64.c:190-206 | The characters the code computes are the four six-bit parts of the 24-bit group |
| `Base64.Alphabet` | lib/base64.c:211-214 | The character for each value is that of table 1 of RFC 4648 |
| `Base64.Vectors` | lib/base64.c:168-209 | The seven examples of section 10 of RFC 4648 |
| `Base64Decode.OtherCharacters` | lib/base64.c:56-79 | White space is HT, LF, VT, FF, CR and SPC; the padding character is the equals sign |
| `Base64.EncodeCtx.Single` | lib/base64.c:239-260 | One byte adds exactly the one or two characters that become certain; left-over bits are 0, 2 or 4 |
| `Base64.EncodeCtx.Update` | lib/base64.c:264-303 | The characters emitted are exactly those that become certain, at most (8 * length + 4) / 6 |
| `Base64.EncodeCtx.Final` | lib/base64.c:307-325 | The rest of the encoding, at most three characters |
| `Base64.EncodePieces` | lib/base64.c:264-325 | However the input is cut, the update calls and the final call on a context emit the encoding of the whole input, which is what encode_raw writes |
| `Base64.FinalText` | lib/base64.c:307-325 | What is certain and what the final call adds make the whole encoding |
| `Base64Decode.DecodeCtx.Single` | lib/base64.c:81-126 | One character is refused or decoded exactly as specified; only the held bits of the 16-bit word matter |
| `Base64Decode.DecodeCtx.Update` | lib/base64.c:128-156 | The text is refused or decoded exactly as specified, within the documented output length |
| `Base64Decode.DecodeCtx.Final` | lib/base64.c:158-162 | Succeeds exactly when the text fed so far, white space aside, is the encoding of the output or that encoding with a null group after it |
| `Base64Decode.DecodePieces` | lib/base64.c:81-162 | Any text in any pieces: the update and final calls accept it exactly when it is, white space aside, such a text, and then with the encoded bytes as output |
| `Base64Decode.OutputBound` | lib/base64.c:152-152 | Output bits and held bits never exceed the bits held before and six for each character |
| `Base64Decode.InPieces` | lib/base64.c:128-156 | Decoding in pieces is decoding the joined text |
| `Base64Decode.SpacesIgnored` | lib/base64.c:81-126 | White space anywhere makes no difference |
| `Base64Decode.RoundTrip` | lib/base64.c:81-162 | Decoding the encoding of any byte string gives it back, and the final call succeeds |
| `Base64Decode.RoundTripSpaced` | lib/base64.c:81-162 | The same with white space inserted anywhere |
| `Base64Decode.AcceptedExactly` | lib/base64.c:81-162 | A text without white space is accepted with output o exactly when it is the encoding of o or, if o fills whole groups, that encoding followed by A=== |
| `Md5.Carry` | lib/md5.c:96-98 | The two-word counter with carry is the byte count modulo 2^64 |
| `Md5.BitCount` | lib/md5.c:152-154 | The two words appended are the bit count modulo 2^64 |
| `Md5.GapLeast` | lib/md5.c:138-148 | No shorter padding would reach 56 bytes modulo 64 (section 3.1 of RFC 1321) |
| `Md5.PaddedLength` | lib/md5.c:138-148 | The padded message is a whole number of blocks |
| `Md5.PaddedParts` | lib/md5.c:129-154 | It is the message, one set bit, clear bits, and eight bytes whose value, least significant first, is the bit count modulo 2^64 |
| `Md5.LittleValue` | lib/md5.c:152-156 | The bytes of a word are its value, least significant first |
| `Md5.InitialBytes` | lib/md5.c:72-82 | The initial state in memory is the bytes of section 3.3 of RFC 1321 |
| `Md5.AbsorbJoined` | lib/md5.c:88-123 | Hashing joined blocks is hashing the second part from the state that the first part leaves |
| `Md5.Context.constructor` | lib/md5.c:72-82 | Nothing hashed, nothing counted |
| `Md5.Context.Update` | lib/md5.c:88-123 | However the data is cut, whole blocks are passed to the transform and the rest waits, and the counter follows |
| `Md5.Context.Final` | lib/md5.c:129-159 | The blocks passed to the transform are exactly those of the padded message, the digest is their hash, and state, counter and block buffer are zero afterwards |
| `Md5.Digest` | lib/md5.c:88-159 | Whatever the pieces, the digest is the hash of the padded message |
| `Des.EpIp` | lib/encrypt.c:61-81 | EP undoes IP but for a swap of the halves |
| `Des.IpEp` | lib/encrypt.c:61-81 | IP undoes EP but for a swap of the halves |
| `Des.IpLiteral` | lib/encrypt.c:61-70 | The table IP, row by row |
| `Des.EpLiteral` | lib/encrypt.c:72-81 | The table EP, row by row |
| `Des.SixBits` | lib/encrypt.c:175-178 | An S-box index of six bits is below 64 |
| `Des.RoundAt` | lib/encrypt.c:174-184 | Each bit of the cipher function is the bit 3 - p % 4 of the entry of S-box p / 4, p its place in the permutation, whose index is the number of the six expanded bits, each combined with its bit of the key |
| `Des.BitAtIs` | lib/encrypt.c:179-181 | The bits taken from an entry are those of its binary form |
| `Des.Complementation` | lib/encrypt.c:162-210 | For every S-box, expansion and permutation: the complemented block under complemented round keys gives the complemented cipher |
| `Des.KeysComplement` | lib/encrypt.c:212-237 | A complemented key block makes complemented round keys |
| `Des.RoundsStandard` | lib/encrypt.c:196-207 | The rounds that change the halves in turn are the rounds of FIPS PUB 46-3 that exchange them, one for each key |
| `Des.CipherStandard` | lib/encrypt.c:187-210 | The cipher is the inverse of IP applied to the last right half and then the last left half |
| `Des.RoundsUndone` | lib/encrypt.c:196-207 | Any even number of Feistel rounds is undone by the keys in reverse order on swapped halves |
| `Des.Index` | lib/encrypt.c:175-178 | The six expanded and keyed bits as a number below 64 |
| `Des.CryptMain` | lib/encrypt.c:162-185 | Each bit of one half is combined with the S-box bit that the keyed and expanded other half selects, in place; the other half stays |
| `Des.AllRounds` | lib/encrypt.c:196-207 | The loop with the key pointer moving up or down performs the sixteen rounds in that order of keys |
| `Des.Perm` | lib/encrypt.c:152-160 | For any table and length each of the first n bits comes from where the table says, and the rest stays |
| `Des.Encrypt` | lib/encrypt.c:187-210 | The block is replaced by its cipher under the keys in order, or in reverse order when deciphering |
| `Des.Deciphers` | lib/encrypt.c:187-210 | Deciphering undoes enciphering for every key schedule, expansion table, S-box and block |
| `Des.Enciphers` | lib/encrypt.c:187-210 | Enciphering undoes deciphering |
| `Des.SetKey` | lib/encrypt.c:212-237 | Bit j of round key i is the bit of the key block that PC1 gives for the place PC2[j], moved within its half by 1, 2, 4, 6, 8, 10, 12, 14, 15, 17, 19, 21, 23, 25, 27 or 28 |
| `Des.RegisterIs` | lib/encrypt.c:216-236 | The bits of the shift register are the schedule of one and two left shifts |
| `DelayPools.Bucket.Init` | src/DelayBucket.cc:46-51 | The level is the configured percentage of the capacity, rounded down |
| `DelayPools.Bucket.Update` | src/DelayBucket.cc:25-31 | The whole restored amount is added except for what does not fit the capacity; nothing changes with rate -1 |
| `DelayPools.Bucket.BytesWanted` | src/DelayBucket.cc:33-38 | At least the minimum, above it never more than maximum and level, and no less than one of the two |
| `DelayPools.Bucket.BytesIn` | src/DelayBucket.cc:40-44 | A read of no more than was granted with minimum 0 never overdraws the bucket, and what was taken is missing from it |
| `DelayPools.BytesWanted` | src/DelayVector.cc:100-113 | At least the minimum; above it never more than the maximum or any member holds; and never less than the most that maximum and all members allow |
| `DelayPools.AnyOrder` | src/DelayVector.cc:100-113 | The grant does not depend on the order of the members |
| `DelayPools.BytesIn` | src/DelayVector.cc:115-126 | Every member pays the quantity, once for each time it is among the members |
| `DelayPools.RunBound` | src/DelayBucket.cc:25-44 | In any run of refills and reads within a grant with minimum 0 no level goes negative, and admitted bytes plus level never exceed the initial level plus what was restored |
| `DelayPools.AdmittedBound` | src/DelayVector.cc:100-126 | All bytes admitted are at most the initial level of any member plus its restore rate times the elapsed updates |
| `DelayPools.Serve` | src/DelayVector.cc:100-126 | The buckets themselves follow every such run, so that these bounds hold of them |
| `DelayPools.OverdrawnIff` | src/DelayVector.cc:111-111 | Taking a whole grant leaves no member negative exactly when no member holds less than the minimum |

## Left out

- squid_rn_delete and squid_rn_walktree (lib/radix.c:695-908): deletion moves nodes inside pairs of memory owned by callers.
- squid_rn_lookup (lib/radix.c:206-222): a match followed by a walk along one chain.
- Non-contiguous masks in the trees: masks are runs of ones after the skipped bytes, and keys are masked already, as lib/radix.c:126-128 requires.
- RadixMasks.LexoBetter: contiguous masks only, because for others the comparison is no order: each of two masks of one length can be the better one.
- RadixMasks.MaskTable.Index: contiguous masks only, as in the trees.
- RadixMasks.MaskTable.AddMask: contiguous masks only, as in the trees.
- RadixMasks.MaskTable.constructor: key lengths from 2 to 254, because a length of 255 in byte 0 of a mask would equal that byte of the all-one root leaf.
- RadixRoutes.RouteTable.constructor: bit offsets on a byte boundary past the length byte, because squid_rn_insert compares whole bytes from the offset on.
- RadixRoutes.RouteTable.Match: keys of the length of the tree, which their first byte states, as all callers of one tree pass them.
- Debug numbering (RN_DEBUG), free lists and allocation failure in lib/radix.c; byte offsets and bit masks of nodes are derived from the bit index.
- The shared annotation and the complaint about a non-unique normal route (lib/radix.c:674-687): two routes with one mask are never listed at one node (`RadixAddRoute.NoTwin`), so these lines are not reached.
- SplayNode::destroy and the deletion of removed nodes: memory is not reclaimed in the model.
- BodySink, BodyPipeCheckout and the call queue (src/BodyPipe.cc:14-102, 480-518): the sink's calls are ordinary consume and clear steps of a run, and calls are logged when scheduled; of their delivery only the canDial tests are modelled.
- MemBuf growth: the buffer is a byte sequence with the capacity of MemBuf::potentialSpaceSize (src/MemBuf.cc:164-168).
- hash_string, hashPrime and the hash driver in lib/hash.cc; hash functions other than hash4 are a parameter of the table.
- Heap skew measurement and printing in lib/heap.c; keys are real numbers, so not-a-number keys do not occur.
- xinet_ntop and xinet_pton: a choice by address family around the modelled functions.
- The URL alphabet of Base 64: only declared in include/base64.h.
- SquidMD5Transform and byteSwap: the compression function is a parameter, and a block is its bytes in memory order on a little-endian machine.
- crypt (lib/encrypt.c:239-305): salt handling and text output around setkey and encrypt; the tables PC1 and PC2 are parameters of SetKey, and IP and EP are given by row formulas that Des.IpLiteral and Des.EpLiteral write out.
- Fixed-width overflow of bucket levels, heap sizes and body sizes: integers are unbounded, except for the 16-bit words of Base 64, the 32-bit words of MD5 and hash4, and the unsigned difference in BodyPipe::unproducedSize.
- DelayVector construction, statistics, parsing and deferred reads: configuration and scheduling around the modelled arithmetic.
