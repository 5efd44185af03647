# Torrentkino, verified

Torrentkino is a Kademlia node (BEP 5) that resolves host names through a distributed hash
table and answers over DNS. This project models its core in Dafny and proves what the core
is relied on for. Everything below holds for all inputs, all runs or all reachable states.

`dafny verify dfyconfig.toml` checks the whole project.

| file | what it models |
|---|---|
| Collections.dfy, Buffers.dfy, Clock.dfy, Random.dfy | options, edits of sequences, writes into a byte buffer, timers, random ids |
| Bytes.dfy | 20-byte ids as 160-bit numbers, `memcmp`, the XOR metric |
| IdBits.dfy | the bit scan and the bit update on ids |
| Bucket.dfy | the routing table: buckets, placement, splitting |
| Neighbourhood.dfy | the routing table together with its hash index |
| Lookup.dfy | the sorted candidate list of one lookup |
| P2p.dfy | transactions and lookups as a protocol with a trace of messages |
| Runs.dfy | what lookups amount to over whole runs of that protocol |
| Values.dfy, Recent.dfy, Cache.dfy | the value store, the list of nodes per target, the cache |
| Tokens.dfy | announce tokens and the token part of the cron job |
| Bencode.dfy | encoder, size pre-pass, validator and decoder |
| Sha1.dfy | FIPS 180-4 and the optimised implementation |
| HashMap.dfy, LinkedList.dfy | the two containers |
| Dns.dfy | the two DNS name codecs |

The main results:

- **Routing table.** In every reachable table the ranges of the buckets cut the 160-bit id
  space into aligned power-of-two intervals. So the bit trick that makes a new bucket id
  always hits the exact midpoint, the loop of splits ends (after at most 157 of them, by a
  pigeonhole argument on distinct ids), and a split loses no node and changes no search.
- **Lookups.** In every run of seeds, replies, answers and expiries, a lookup never asks a
  node twice, has asked its eight nearest nodes, and is freed exactly once. The expiry loop
  ends although it appends to the list it walks, and it announces exactly to the eight
  nearest nodes that supplied a token. Short of its limit a lookup forgets no node, so the
  nodes asked include the eight nearest, to the target it was started for, of all that any reply
  to it ever named. What it has stored of a node is the last word of that node. It lives exactly
  until the first expiry more than sixty seconds after its start, and announces once, then.
- **Bencode.** What the validator accepts the decoder reads without leaving the buffer, up to
  the same cursor, exactly if a number at top level is terminated. Encoding any tree within
  the size limits and decoding it, with any bytes behind, gives the tree back.
- **SHA-1.** The implementation with rewritten Boolean functions, rolling schedule and rotated
  registers computes the digest of FIPS 180-4, however the message is cut into updates.
- **Stores.** After any run of announcements the value store holds the fifty nearest targets
  ever offered, whatever the order of the offers, each with its ten latest announcers of the
  whole run. The cache is first in, first out, and each target in it has the ten pairs heard
  last since it was created.
- **Tokens.** There is always a token to hand out, whatever the clock reads, and it is valid
  at every moment exactly if no tick expires an older token with the same id. With new ids every
  token is valid exactly until the first expiry more than 1800 seconds after it was made.
- **Containers and names.** List and hash map refine a sequence and a map; two independently
  written DNS encoders agree on every string, and the decoders invert them.

Where the code differs from what one would expect, the model follows the code:

- `bckt_find_any_match` looks downwards only, so it can come back empty-handed from a table
  with nodes (`Bucket.NoMatchInNonEmptyTable`).
- `ben_validate` accepts a number at top level that runs off the end of the packet, and the
  decoder then reads past the end (`Bencode.UnterminatedNumberAccepted`); the exact condition
  is `Bencode.AcceptedDecodesIff`. In the receive buffer, where a NUL follows, the decoder then
  never leaves its loop (`Bencode.UnterminatedLoops`).
- `list_del` leaves the list anchored at a freed item, and walks from it, exactly when that
  item was the anchor and not the head (`LinkedList.List.Del`). The per-target lists get there:
  after a put on a list that is not empty the anchor is the second item, so an update of that
  one always does it (`LinkedList.List.UpdateSecond`, `LinkedList.PutPutUpdate`).
  `Recent.Target.Update` reports for which updates. Three announcements on an empty store
  (`Values.PutPutPut`) or one reply of three address pairs (`Cache.RepeatedPairDangles`) are
  enough.
- A repeated transaction id makes the older transaction unfindable at once, and the younger one
  when the older is deleted (`P2p.RepeatedIdUnfindable`). All are found at every moment exactly
  if every id is new when it is drawn (`P2p.AlwaysFindableIff`). What is proved of lookups does
  not depend on it.
- A repeated token id makes the newest token invalid when the older one expires. A run of two
  ticks does it (`Tokens.RepeatedTokenFails`), `Tokens.ValidIff` and `Tokens.AlwaysValidIff`
  say for every run when it happens, and `Random.Draw` when an id is new.
- `p_decode_domain` looks at the one byte behind the size it was given exactly if labels that
  fit fill all of that size (`Dns.DecodeDomain`, with the input of `Dns.LooksBehind`).
- `ReadName` writes in front of its buffer exactly for the root name, and behind it exactly for
  a name of more than 256 bytes in which no pointer comes first (`Dns.ReadName`).
- A cached target that is put again does not move to the front (`Cache.FirstInFirstOut`).

## Model

| member | source | states |
|---|---|---|
| `Bytes.MemCmp` | src/p2p/bucket.c:130 | the sign of `memcmp` on ids is the order of the 160-bit numbers, and zero means equal |
| `Bytes.Sha1Compare` | src/shr/str.c:324-344 | the sign of the comparison is the strict total order on XOR distances to the target; zero exactly for equal ids |
| `Bytes.FirstDifferenceIsCloser` | src/shr/str.c:330-341 | the first differing byte alone decides which id is closer, and different ids are never equally far |
| `Bytes.DistanceInjective` | src/shr/str.c:324-344 | two ids are equally far from a target exactly if they are equal |
| `Bytes.DistanceZero` | src/shr/str.c:324-344 | an id is at distance zero of itself alone, and distance has no direction |
| `Bytes.XorDigit` | src/shr/str.c:334-335 | a binary digit of the exclusive or is set exactly if it is set in one of the two and not in the other |
| `IdBits.SignificantBit` | src/p2p/bucket.c:368-389 | the byte and bit scan finds the lowest set bit of the 160-bit number, or -1 for zero |
| `IdBits.AlignedEnds` | src/p2p/bucket.c:353-355 | of the two ends of an aligned interval of width 2^k the larger lowest set bit is 159 - k |
| `IdBits.ClearBeyondLowest` | src/p2p/bucket.c:356-363 | the bit that is about to be set is clear |
| `IdBits.WithBitValue` | src/p2p/bucket.c:362-363 | setting that bit of the byte string adds its weight to the number |
| `Bucket.SplitIdIsMidpoint` | src/p2p/bucket.c:338-366 | the computed id is the exact midpoint of the bucket's range |
| `Bucket.BestMatchUnique` | src/p2p/bucket.c:120-139 | exactly one bucket covers an id, and it is the one where the walk stops |
| `Bucket.FindIffStored` | src/p2p/bucket.c:167-191 | a search finds a node if and only if some bucket of the table holds it |
| `Bucket.StoredOnce` | src/p2p/bucket.c:59-93 | no id is stored twice, in the same bucket or in two |
| `Bucket.PutNodeFind` | src/p2p/bucket.c:59-93 | storing a node changes the search for its own id and no other |
| `Bucket.DelNodeFind` | src/p2p/bucket.c:95-118 | deleting an id changes the search for that id and no other |
| `Bucket.PutNodeValid` | src/p2p/bucket.c:59-93 | storing keeps partition, placement and the size bound |
| `Bucket.DelNodeValid` | src/p2p/bucket.c:95-118 | deleting keeps partition, placement and the size bound |
| `Bucket.SplitNodeValid` | src/p2p/bucket.c:193-250 | splitting keeps partition, placement and the size bound |
| `Bucket.SplittableIsWide` | src/p2p/bucket.c:210-216 | a bucket with more than eight nodes spans at least 16 ids, so there is a bit left to set |
| `Bucket.SplitConserves` | src/p2p/bucket.c:193-250 | a split keeps every node, each half in the old relative order, and touches no other bucket |
| `Bucket.SplitNodeFind` | src/p2p/bucket.c:193-250 | a split changes no search |
| `Bucket.SplitHalvesTarget` | src/p2p/bucket.c:193-250 | every split halves the range of the target's own bucket, and that stays at least 8 wide |
| `Bucket.SplitBestMatch` | src/p2p/bucket.c:233-243 | where every id belongs after a bucket has been cut |
| `Bucket.SplitHandOut` | src/p2p/bucket.c:233-243 | one round of the redistribution stores the node where the next stage of the split has it |
| `Bucket.BucketIdsIncrease` | src/p2p/bucket.c:193-250 | bucket ids strictly increase from zero |
| `Bucket.ReachableTable` | src/p2p/bucket.c:59-250 | after every run of put, del and split: ids increase from 0, each range is an aligned interval of width 2^(159 - larger lowest set bit of its ends), at most 20 nodes per bucket, every node in the one bucket where it is searched |
| `Bucket.NonEmptyIsNearest` | src/p2p/bucket.c:141-165 | the downward walk ends at the nearest non-empty bucket at or below, or fails exactly if all of those are empty |
| `Bucket.NoMatchInNonEmptyTable` | src/p2p/bucket.c:155-164 | in a reachable table full of nodes the search for any match can still fail |
| `Bucket.FirstOkNodes` | src/p2p/bucket.c:409-429 | the contacts handed out are distinct good nodes of one bucket, all of them if fewer than eight |
| `Bucket.RoutingTable.constructor` | src/p2p/bucket.c:26-39 | the first table is one empty bucket over the whole id space |
| `Bucket.RoutingTable.FindBestMatch` | src/p2p/bucket.c:120-139 | the loop returns the best match |
| `Bucket.RoutingTable.FindAnyMatch` | src/p2p/bucket.c:141-165 | the loop returns the nearest non-empty bucket at or below the best match |
| `Bucket.RoutingTable.FindNode` | src/p2p/bucket.c:167-191 | the loop returns the stored node with the id, if any |
| `Bucket.RoutingTable.Put` | src/p2p/bucket.c:59-93 | stores at the end of the matching bucket, exactly if the id is new and the bucket has room |
| `Bucket.RoutingTable.Del` | src/p2p/bucket.c:95-118 | removes the id from its bucket and keeps the table valid |
| `Bucket.RoutingTable.ComputeId` | src/p2p/bucket.c:338-366 | yields the splitting id, and fails exactly for a range of a single id |
| `Bucket.RoutingTable.Split` | src/p2p/bucket.c:193-250 | cuts the target's bucket exactly if it holds more than eight nodes, and redistributes them |
| `Bucket.RoutingTable.SplitLoop` | src/p2p/bucket.c:252-268 | ends after at most 157 splits with at most eight nodes in the target's bucket, and no search has changed |
| `Bucket.RoutingTable.IsEmpty` | src/p2p/bucket.c:318-336 | true exactly if no bucket holds a node |
| `Bucket.RoutingTable.CompactList` | src/p2p/bucket.c:391-432 | the first eight good nodes of the nearest non-empty bucket at or below |
| `Neighbourhood.Neighbourhood.constructor` | src/p2p/neighbourhood.c:39-45 | empty table and index agree |
| `Neighbourhood.Neighbourhood.Put` | src/p2p/neighbourhood.c:54-85 | oneself and localhost are ignored, a known node gets a new address, a new one is stored and indexed exactly if its bucket has room |
| `Neighbourhood.Neighbourhood.Del` | src/p2p/neighbourhood.c:87-92 | table and index lose the node together |
| `Neighbourhood.Neighbourhood.Pinged` | src/p2p/neighbourhood.c:94-101 | counts one more unanswered ping for that node and for no other |
| `Neighbourhood.Neighbourhood.Ponged` | src/p2p/neighbourhood.c:103-110 | resets the count of that node and of no other |
| `Neighbourhood.Neighbourhood.Expire` | src/p2p/neighbourhood.c:112-142 | exactly the nodes with four or more unanswered pings go, from table and index, and the others keep their order |
| `Neighbourhood.Neighbourhood.Split` | src/p2p/neighbourhood.c:144-147 | the index still answers as the table does, and the target's bucket is small |
| `Neighbourhood.DeletedAt` | src/p2p/neighbourhood.c:87-92 | a deletion during the walk takes out just the node at hand |
| `Neighbourhood.NoneBadLeft` | src/p2p/neighbourhood.c:112-142 | after the walk no bad node is indexed |
| `Lookup.PutIndexCounts` | src/p2p/lookup.c:71-112 | the returned index is the number of stored nodes closer than the new one, unless the list is full |
| `Lookup.InsertAscendingIff` | src/p2p/lookup.c:91-109 | inserting keeps the list strictly ascending in distance exactly if the id is new |
| `Lookup.PutAsked` | src/p2p/p2p.c:946-958 | a new node that is asked keeps the eight nearest asked and no node asked twice |
| `Lookup.PutUnasked` | src/p2p/p2p.c:951-955 | a new node beyond the eighth place, or one for which there is no room, need not be asked |
| `Lookup.HeardAllValid` | src/p2p/p2p.c:924-959 | a whole reply keeps the first eight asked, whatever it lists |
| `Lookup.HeardAllRemembers` | src/p2p/p2p.c:924-959 | short of the limit every usable node of a reply is in the list afterwards |
| `Lookup.SeededAllValid` | src/p2p/p2p.c:1157-1172 | the seeds of a lookup are all remembered and asked once |
| `Lookup.RequestBound` | src/p2p/lookup.c:78-83 | a lookup never sends more than 32767 requests |
| `Lookup.TokenHoldersAscending` | src/p2p/p2p.c:313-326 | the announce loop meets its receivers nearest first |
| `Lookup.TokenHoldersClosest` | src/p2p/p2p.c:313-326 | a node with a token that is passed over is farther than all eight receivers |
| `P2p.RunInv` | src/p2p/transaction.c:65-137 | the protocol invariant holds after every run, whichever ids are drawn |
| `Runs.RunsGoOn` | src/p2p/transaction.c:40-47 | the empty run exists, and every run goes on by every step that is possible |
| `Runs.EnabledMeans` | src/p2p/p2p.c:1137-1173 | which transactions and lookups can be started |
| `P2p.EveryRun` | src/p2p/p2p.c:905-960 | in every run no node is asked twice for a lookup, at most 32767 are, the eight nearest have been; a lookup that is gone has been freed once, a live one never and it has an owner |
| `P2p.NearestOfAllTold` | src/p2p/p2p.c:905-960 | in every run a node named by any reply to a live lookup short of the limit has been asked, or eight nearer ones have |
| `P2p.ToldIsListed` | src/p2p/p2p.c:946-955 | no step of a run makes a live lookup forget a node, short of the limit |
| `Runs.TargetKept` | src/p2p/lookup.c:39-58 | in every run a lookup has the target that it was started for |
| `Runs.SearchesItsTarget` | src/p2p/p2p.c:1137-1173 | in every run the nodes of a live lookup stand in order of distance to the target it was started for, the first eight asked, none twice, at most 32767 |
| `Runs.NearestToItsTarget` | src/p2p/p2p.c:905-960 | in every run a node named by any reply to a live lookup short of the limit has been asked, or eight nearer to the target it was started for have |
| `Runs.StoredIsLastWord` | src/p2p/lookup.c:119-130 | in every run the token and address stored for a node are those of its last reply to the lookup; before the first there is no token and the address is the one under which it was named |
| `Runs.NextInfo` | src/p2p/p2p.c:905-960 | one step changes what a lookup knows of a node only by a reply of that node, and a new node comes without a token |
| `Runs.LivesSixtySeconds` | src/p2p/transaction.c:112-137 | in every run a lookup is live exactly if no expiry after its start came more than sixty seconds later or at the end of the program; once gone it has been freed once |
| `Runs.ExpiryLeaves` | src/p2p/transaction.c:112-137 | an expiry leaves exactly the transactions whose time has not passed, in order, none at the end of the program, and behind them only announces good for sixty seconds |
| `Runs.PutForSixtySeconds` | src/p2p/transaction.c:65-88 | a transaction is put at the end of the list, good for sixty seconds |
| `Runs.AnnouncesOnce` | src/p2p/p2p.c:301-327 | in every run a lookup announces nothing while it lives; at its end, if it was started for that, once to each of the at most eight nearest nodes with a token, nearest first, with that token; and never again |
| `Runs.ReceiverSupplied` | src/p2p/p2p.c:313-326 | whoever is announced to gets the token of its own last reply |
| `P2p.ReplyInv` | src/p2p/p2p.c:905-960 | a get_peers reply, whatever it carries, keeps the protocol invariant |
| `P2p.StartInv` | src/p2p/p2p.c:1137-1173 | starting a lookup keeps the protocol invariant |
| `P2p.DropTidInv` | src/p2p/transaction.c:90-110 | ending a transaction frees the lookup it owns, once |
| `P2p.AnsweredInv` | src/p2p/p2p.c:624-633 | an answer keeps the protocol invariant |
| `P2p.P2p.EndAnswered` | src/p2p/p2p.c:624-633 | the switch performs the step of an answer |
| `Runs.AnswerEnds` | src/p2p/p2p.c:624-633 | an answer ends the latest ping, find_node or announce transaction under its id, and leaves every other kind |
| `P2p.WalkInv` | src/p2p/transaction.c:112-137 | the expiry walk keeps the protocol invariant although announces append to the list |
| `P2p.VisitedShrinks` | src/p2p/transaction.c:118-136 | every visit lowers a weight of the rest of the list, so the walk ends, also under GAMEOVER |
| `P2p.WalkTrace` | src/p2p/transaction.c:112-137 | the walk announces and frees exactly what the transactions present at its start call for, in list order |
| `P2p.WalkSurvivors` | src/p2p/transaction.c:112-137 | the unexpired transactions stay in order, followed by nothing but new announce transactions |
| `P2p.ReceiversClosest` | src/p2p/p2p.c:301-327 | announces go to the at most eight closest nodes with a token, nearest first |
| `P2p.P2p.constructor` | src/p2p/transaction.c:40-47 | no transaction, no lookup, empty trace |
| `P2p.P2p.LdbPut` | src/p2p/lookup.c:71-112 | the loop inserts at the first farther node and returns that index, or 32767 if full |
| `P2p.P2p.TdbPut` | src/p2p/transaction.c:65-88 | list and index gain the transaction, good for 60 seconds, whether or not its id is new |
| `P2p.AlwaysFindableIff` | src/p2p/transaction.c:65-110 | over any sequence of puts and deletions every listed transaction is found under its id at every moment exactly if every id was new when it was drawn |
| `P2p.PutFindableIff` | src/p2p/transaction.c:65-88 | a put leaves every transaction to be found exactly if its id is new |
| `P2p.RepeatedIdUnfindable` | src/p2p/transaction.c:90-110 | of two transactions under one id the younger is listed but not found once the older is deleted |
| `Random.Draw` | src/p2p/transaction.c:175-190 | the id is new exactly if one of the first thousand draws is |
| `P2p.P2p.TdbDel` | src/p2p/transaction.c:90-110 | list, index and owned lookup go together |
| `P2p.P2p.StartLookup` | src/p2p/p2p.c:1152-1173 | the loop performs the step that starts a lookup |
| `P2p.P2p.CronLookup` | src/p2p/p2p.c:1137-1173 | from any valid routing table the whole function performs a step that starts a lookup |
| `P2p.P2p.SeedsFrom` | src/p2p/p2p.c:1148-1150 | the seeds are the first eight good nodes of one bucket, at most eight and distinct |
| `P2p.P2p.GetPeersReply` | src/p2p/p2p.c:905-960 | the loop performs the step of a get_peers reply |
| `P2p.P2p.CronAnnounce` | src/p2p/p2p.c:301-327 | one announce, with the stored token, to each receiver, and a transaction for each |
| `P2p.P2p.TdbExpire` | src/p2p/transaction.c:112-137 | the loop over the growing list performs the expiry step and terminates, whichever ids are drawn |
| `Values.NearestHeld` | src/p2p/value.c:51-118 | after any offers the targets held are the fifty (or fewer) nearest ever offered, in ascending distance |
| `Values.OrderDoesNotMatter` | src/p2p/value.c:51-118 | the targets held depend only on the set of ids offered |
| `Values.DroppedIsFarthest` | src/p2p/value.c:96-115 | what is dropped is farther than everything kept, and only when fifty are held |
| `Values.ValueStore.InsSort` | src/p2p/value.c:70-118 | inserts by distance, evicts the last; the target handed back is one that is kept; unless the log is verbose all lists are anchored at their heads |
| `Values.ValueStore.Print` | src/p2p/value.c:153-175 | printing anchors every list at its head and changes nothing else |
| `Values.ValueStore.ValPut` | src/p2p/value.c:51-68 | the announcer is recorded under its target, which is the same object or a new one; no other target's list changes; says where all lists are anchored, and reports an update that walks from a freed item |
| `Values.Announce` | src/p2p/value.c:51-68 | after any run of puts on an empty store it holds the fifty nearest targets ever offered, each with its ten most recent announcers of the whole run |
| `Values.NeverReturns` | src/p2p/value.c:70-118 | a target that was evicted never comes back |
| `Values.PutPutPut` | src/p2p/value.c:314-336 | three announcements on an empty store end in a walk from a freed item |
| `Values.ValueStore.ValExpire` | src/p2p/value.c:128-151 | exactly the targets with a living announcement stay, as the same objects, each with its living announcements and anchored at the head |
| `Recent.TenMostRecent` | src/p2p/value.c:237-336 | without expiry the list is the ten most recent distinct keys |
| `Recent.RecentsMeaning` | src/p2p/value.c:314-336 | most recent means: every announced key once, with its latest data, ordered by its last announcement |
| `Recent.RecentsOrder` | src/p2p/value.c:314-336 | of two listed keys the first was announced again after the last announcement of the second |
| `Recent.AliveIsPrefix` | src/p2p/value.c:263-281 | with falling end-of-life times an expiry removes exactly a tail |
| `Recent.EveryRun` | src/p2p/cache.c:253-346 | under a clock that does not go back: at most ten distinct keys, and end-of-life times never rise along the list |
| `Recent.Target.Put` | src/p2p/cache.c:253-273 | new key to the front, eleventh off, index in step; the anchor is left at the second item unless the list was empty or one was deleted |
| `Recent.Target.Del` | src/p2p/cache.c:275-281 | list and index lose the key together; reports exactly when that was the anchored item inside the list, and else the list is anchored at its head |
| `Recent.Target.Update` | src/p2p/value.c:314-336 | known or new, the key comes to the front with a new end of life; reports exactly when the deletion is of the anchored item inside the list, and where the anchor is left |
| `Recent.Target.Start` | src/p2p/value.c:192 | handing out or printing the list anchors it at the head |
| `Recent.Target.Expire` | src/p2p/cache.c:283-301 | the loop removes exactly the expired nodes, from list and index, and never walks from a freed item |
| `Cache.FirstInFirstOut` | src/p2p/cache.c:51-118 | the cache is the fifty latest creations without repetition, and holds the target just put |
| `Cache.Cache.Prepare` | src/p2p/cache.c:94-118 | an existing target is handed back in place, a new one is created in front |
| `Cache.Cache.Put` | src/p2p/cache.c:51-84 | the pairs of the reply come to the front of the target, which is the same object or a new one; no other target changes, the oldest beyond fifty goes; says where the list is anchored and reports exactly when one of the pairs deletes the anchored item inside the list |
| `Cache.MergeAll` | src/p2p/cache.c:51-118 | after any run of puts on an empty cache it holds the fifty latest creations, each with the ten pairs most recently heard since it was created |
| `Cache.RepeatedPairDangles` | src/p2p/cache.c:63-78 | a reply that names two nodes and the first one again deletes the anchored item inside the list |
| `Tokens.AlwaysAToken` | src/p2p/p2p.c:150-164 | from startup on, whatever the clock reads and whichever ids are drawn, there is a token to hand out |
| `Tokens.ValidIff` | src/p2p/p2p.c:150-164 | after any run the token handed out is valid exactly if no tick since the one that made it expired an older token with its id |
| `Tokens.AlwaysValidIff` | src/p2p/p2p.c:150-164 | the token handed out is valid at every moment of a run exactly if no tick of it expires an older token with the id of the newest |
| `Tokens.FreshTokensValid` | src/p2p/token.c:115-138 | if every id drawn by a renewal is new, the token handed out is valid at every moment from startup on |
| `Tokens.CronFresh` | src/p2p/token.c:59-74 | a tick that draws no id or a new one clashes with nothing and keeps the ids distinct |
| `Tokens.ValidUntil` | src/p2p/token.c:84-113 | over every run with new ids a token is valid exactly until the first expiry after its time, as long as its id is not drawn again |
| `Tokens.FirstTokenLife` | src/p2p/token.c:59-113 | the token made at startup is valid exactly until the first expiry more than 1800 seconds later |
| `Tokens.RenewedTokenLife` | src/p2p/token.c:59-113 | so is every token that a renewal makes, also when newer ones are handed out |
| `Tokens.TimerGaps` | src/p2p/time.c:65-73 | a token is renewed 240 to 359 seconds, and an expiry runs 50 to 69 seconds, after the last time at the earliest |
| `Tokens.CronValidIff` | src/p2p/p2p.c:135-164 | every tick leaves a token; the one handed out is valid exactly if it is new or was valid, and no older one with its id expires |
| `Tokens.ExpireSparesNewest` | src/p2p/token.c:84-101 | an expiry spares the newest token unless that one has run out, and leaves it valid exactly if no expired one has its id |
| `Tokens.RepeatedTokenFails` | src/p2p/p2p.c:135-164 | a run of two ticks that draw the id of the first token ends with an invalid token to hand out |
| `Tokens.TokenDb.constructor` | src/p2p/torrentkino.c:109-110 | startup leaves one token |
| `Tokens.TokenDb.Expire` | src/p2p/token.c:84-101 | the loop removes the expired tokens from list and index |
| `Tokens.TokenDb.CronTick` | src/p2p/p2p.c:135-164 | renewal before expiry, each under its own timer; a token is left, and it is valid exactly under the stated condition, whatever the draws give |
| `Bencode.SoundR` | src/p2p/ben.c:606-659 | an accepted value that is a container, or has bytes behind it, is decoded inside the buffer up to the validator's cursor |
| `Bencode.SoundEntries` | src/p2p/ben.c:661-684 | the same for the entries of a dictionary |
| `Bencode.SoundItems` | src/p2p/ben.c:686-706 | the same for the items of a list |
| `Bencode.SoundS` | src/p2p/ben.c:708-777 | an accepted string decodes to the same cursor, or is a bare number that runs off the end |
| `Bencode.SoundI` | src/p2p/ben.c:779-856 | an accepted integer decodes to the same cursor and is in range, or runs off the end |
| `Bencode.AcceptedDecodesIff` | src/p2p/ben.c:595-604 | an accepted packet is decoded inside the buffer exactly if a top-level number has its terminator |
| `Bencode.UnterminatedNumberAccepted` | src/p2p/ben.c:708-777 | the packet `12` is accepted and decoding it leaves the buffer |
| `Bencode.RoundTrip` | src/p2p/ben.c:343-426 | wherever the encoding of a tree within the limits stands, validator and decoder step over exactly it and the tree comes back |
| `Bencode.EncodeDecode` | src/p2p/ben.c:428-471 | encode then decode is the identity, with any bytes behind |
| `Bencode.DecodeEncodeDecode` | src/p2p/ben.c:428-471 | a decoded packet survives being encoded and decoded again |
| `Bencode.StrRoundTrip` | src/p2p/ben.c:505-544 | strings of up to 1023 bytes round trip |
| `Bencode.IntRoundTrip` | src/p2p/ben.c:546-593 | integers of magnitude up to 2147483647 round trip |
| `Bencode.EncSize` | src/p2p/ben.c:246-319 | the size pre-pass computes the length of the encoding |
| `Bencode.EncRec` | src/p2p/ben.c:343-426 | writes exactly the encoding at the cursor and nothing else |
| `Bencode.Enc` | src/p2p/ben.c:321-341 | the buffer of the computed size is filled exactly, so encoding does not fail |
| `Bencode.StringBytes` | src/p2p/ben.c:343-426 | a string is written as its length in decimal, the byte 58 and its bytes |
| `Bencode.IntegerBytes` | src/p2p/ben.c:343-426 | an integer is written between the bytes 105 and 101, with 45 in front if negative |
| `Bencode.ListBytes` | src/p2p/ben.c:343-426 | a list is written between the bytes 108 and 101, item by item |
| `Bencode.DictBytes` | src/p2p/ben.c:343-426 | a dictionary is written between the bytes 100 and 101, key and value in turn |
| `Bencode.PacketInBytes` | src/p2p/ben.c:343-426 | one packet, byte by byte |
| `Bencode.StringAcceptedIff` | src/p2p/ben.c:708-777 | a string is accepted exactly with one to four digits, a colon, a length up to 1023 and that many bytes, which the decoder returns |
| `Bencode.IntegerAcceptedIff` | src/p2p/ben.c:779-856 | an integer is accepted exactly with an optional minus, one to ten digits, a magnitude up to 2147483647 and an `e`, and the decoder returns its value |
| `Bencode.DigitBufferHolds` | src/p2p/ben.c:505-544 | the decoder overruns its digit buffer exactly from 1024 digits on |
| `Bencode.SmallMeans` | src/p2p/ben.c:606-856 | the trees within the limits, in numbers |
| `Bencode.FirstByteDecides` | src/p2p/ben.c:606-659 | which byte announces which kind of value, and which none |
| `Bencode.Raw.CheckR` | src/p2p/ben.c:606-659 | the validator with its shared cursor accepts what the specification accepts and stops there |
| `Bencode.Raw.CheckD` | src/p2p/ben.c:661-684 | the dictionary loop of the validator |
| `Bencode.Raw.CheckL` | src/p2p/ben.c:686-706 | the list loop of the validator |
| `Bencode.Raw.CheckS` | src/p2p/ben.c:708-777 | the string scan of the validator |
| `Bencode.Raw.CheckI` | src/p2p/ben.c:779-856 | the integer scan of the validator |
| `Bencode.Raw.ReadR` | src/p2p/ben.c:439-471 | the decoder, where it can finish, returns the specified tree and cursor |
| `Bencode.Raw.ReadD` | src/p2p/ben.c:473-488 | the dictionary loop of the decoder |
| `Bencode.Raw.ReadL` | src/p2p/ben.c:490-503 | the list loop of the decoder |
| `Bencode.Raw.ReadS` | src/p2p/ben.c:505-544 | the string scan of the decoder, every byte inside the buffer |
| `Bencode.Raw.ReadI` | src/p2p/ben.c:546-593 | the integer scan of the decoder, every byte inside the buffer |
| `Bencode.Parse` | src/p2p/p2p.c:329-446 | a packet is handed on exactly if it is a valid dictionary not from a link-local address, and as the tree that was sent; the decoder runs past its end exactly if it is an accepted number without terminator |
| `Bencode.UnterminatedLoops` | src/p2p/ben.c:505-593 | with a NUL behind it, as in the receive buffer, every such packet keeps the decoder in its loop for ever |
| `Sha1.FnRewritten` | src/ext/sha1-linus.c:114-118 | the rewritten functions equal those of section 4.1.1 of FIPS 180-4 in every round |
| `Sha1.MajRewritten` | src/ext/sha1-linus.c:117 | the sum in place of the last `or` has no carries |
| `Fips180.BigEndianOctets` | src/ext/sha1-linus.c:85-89 | a word is loaded with its first octet on top |
| `Fips180.OctetsRoundTrip` | src/ext/sha1-linus.c:85-95 | storing and loading a word are inverse to one another |
| `Fips180.RoundConstants` | src/ext/sha1-linus.c:114-118 | the round constants are the integer parts of 2^30 times the square roots of 2, 3, 5 and 10 |
| `Fips180.InitialOctets` | src/ext/sha1-linus.c:228-238 | the octets of the initial hash value count up, down and down again |
| `Sha1.MixIsSchedule` | src/ext/sha1-linus.c:99-107 | the sixteen-word array yields the word of the 80-word schedule |
| `Sha1.ShaRound` | src/ext/sha1-linus.c:109-112 | two assignments with rotated register names are one round of section 6.1.2 |
| `Sha1.BlockRounds` | src/ext/sha1-linus.c:120-226 | the block function is the hash computation of section 6.1.2, for every block and state |
| `Sha1.PadLenIsLength` | src/ext/sha1-linus.c:275-276 | the two length words are the 64-bit length in bits |
| `Sha1.PaddedParts` | src/ext/sha1-linus.c:274-280 | the pad and the length complete the message as in section 5.1.1 |
| `Fips180.PaddedMeaning` | src/ext/sha1-linus.c:274-280 | a padded message is the message, a one bit, zeros up to the last eight octets of a block, and the length |
| `Fips180.LengthDigits` | src/ext/sha1-linus.c:275-276 | the octets of the length are its digits to the base 256 |
| `Sha1.FoldBlock` | src/ext/sha1-linus.c:259-263 | a complete block is one more compression |
| `Sha1.Context.constructor` | src/ext/sha1-linus.c:228-238 | the initial hash value for the empty message |
| `Sha1.Context.Update` | src/ext/sha1-linus.c:240-266 | the context stands for the old message followed by the new bytes |
| `Sha1.Context.Final` | src/ext/sha1-linus.c:268-285 | the result is the FIPS 180-4 digest of the message |
| `Sha1.HashChunks` | src/ext/sha1-linus.c:240-285 | any way of cutting a message into updates gives the digest of the whole |
| `HashMap.ComputeHash` | src/shr/hash.c:204-214 | the accumulator loop is 33 h + byte in 64 bits |
| `HashMap.HashSteps` | src/shr/hash.c:204-214 | the hash starts at 5381 and takes in each byte as 33 h + byte modulo 2^64 |
| `HashMap.ChainReplaced` | src/shr/hash.c:89-178 | replacing one chain changes the represented map at that key only |
| `HashMap.Hash.constructor` | src/shr/hash.c:25-33 | a new table represents the empty map |
| `HashMap.Hash.Get` | src/shr/hash.c:68-87 | returns what the map holds |
| `HashMap.Hash.Put` | src/shr/hash.c:89-128 | updates the map, refused only for a new key in a chain of LONG_MAX pairs |
| `HashMap.Hash.Del` | src/shr/hash.c:130-178 | removes the key from the map, if it is there |
| `HashMap.Hash.GetPair` | src/shr/hash.c:180-202 | finds the one pair with the key in its chain |
| `LinkedList.Joined` | src/shr/list.c:137-142 | two chains linked at their ends are one chain with the values of both |
| `LinkedList.List.constructor` | src/shr/list.c:25-33 | an empty list |
| `LinkedList.List.Start` | src/shr/list.c:63-85 | from any anchor the walk back finds the head and anchors there |
| `LinkedList.List.Stop` | src/shr/list.c:87-105 | from any anchor the walk forth finds the last item |
| `LinkedList.List.Put` | src/shr/list.c:112-145 | appends, next and prev stay inverse, size is the length |
| `LinkedList.List.Ins` | src/shr/list.c:147-183 | inserts before an item |
| `LinkedList.List.Add` | src/shr/list.c:185-221 | inserts after an item |
| `LinkedList.List.Unlink` | src/shr/list.c:232-246 | removes an item; the anchor is still in the list unless it was that item and not the head |
| `LinkedList.List.Del` | src/shr/list.c:223-249 | removes any item; it walks from the freed item exactly if that was the anchor and not the head, and else anchors at the head |
| `LinkedList.List.PutFront` | src/p2p/value.c:244-245 | inserts in front of the head and leaves the anchor at the old head |
| `LinkedList.List.MoveToFront` | src/p2p/value.c:331-332 | moves any item to the front, and goes wrong exactly if it is the anchor and not the head |
| `LinkedList.List.UpdateSecond` | src/p2p/value.c:319-334 | after a put on any list that is not empty, an update of the second item leaves the list anchored at a freed item |
| `LinkedList.PutPutUpdate` | src/p2p/value.c:319-334 | a new list, two puts and an update of the older item get there |
| `LinkedList.List.Rotate` | src/shr/list.c:275-297 | moves the first item to the end |
| `Dns.SplitsOfDotted` | src/dns/dns.c:97-105 | splitting at dots undoes joining by dots |
| `Dns.DottedOfSplits` | src/dns/dns.c:97-105 | joining undoes splitting, on every string |
| `Dns.NameBytes` | src/dns/dns.c:88-119 | text has the byte 46 between its labels, the wire form the length in front of each and a zero at the end |
| `Dns.WireLength` | src/dns/dns.c:88-119 | a name on the wire is two bytes longer than its text |
| `Dns.EncodeDomain` | src/dns/dns.c:88-119 | writes the wire form of any string, and nothing else |
| `Dns.ChangeToDnsNameFormat` | src/dns/client.c:260-275 | writes the same bytes as the server's encoder, for any string, and appends a dot to the host name |
| `Dns.EncodeSrvData` | src/dns/dns.c:228-234 | the data of a service record take exactly the number of bytes that `p_put_srv` announced |
| `Dns.WireUnique` | src/dns/dns.c:54-85 | a buffer holds at most one name |
| `Dns.Overflows` | src/dns/dns.c:71-73 | a name is refused only when it is too long as a whole |
| `Dns.DecodeDomain` | src/dns/dns.c:54-85 | on any bytes: success means the buffer holds that name, with its text and exact length; a name that is held is refused exactly if it does not fit; the byte behind the size is looked at exactly if labels that fit fill the size |
| `Dns.FillsIff` | src/dns/dns.c:61-78 | where the decoder stops, it stands behind the size exactly if some labels that fit fill the size |
| `Dns.LooksBehind` | src/dns/dns.c:61 | one label that fills two announced bytes |
| `Dns.ReadName` | src/dns/client.c:210-254 | the in-place shifting recovers the text and the consumed length; it writes in front of its buffer exactly for the root name, follows a pointer exactly at the first byte of 192 and above within 257 bytes, and else writes behind its buffer exactly for more than 256 bytes |
| `Dns.Ask` | src/dns/client.c:97-100 | a name within section 2.3.4 of RFC 1035 that the client encodes is read back by the server, whatever follows |
| `Dns.Answer` | src/dns/client.c:151-152 | a name that the server encodes is read back by the client, whatever follows |

## Left out

- Sockets, epoll, threads, mutexes and the clock: a packet or a cron call is one atomic step, with time and random bytes as inputs.
- The message builders in src/p2p/send_udp.c: a message sent is an event in a trace.
- Encryption (src/p2p/aes.c), the web server (src/web), the name service plugin (src/nss) and the resolver's DNS dialogue. A lookup that the resolver starts (src/p2p/resolver.c:192-227) takes the same step as `P2p.P2p.StartLookup`.
- Logging, configuration, hexadecimal printing and allocation failure.
- Lifetime of freed memory: lookups, candidates and transactions are named by numbers and ids in place of pointers. That a lookup is freed once is stated on the trace.
- The stack depth that nested bencode takes: recursion is unbounded in the model.
- `Recent.Target.Update`: when it reports that the anchored item inside the list was deleted, which is the second item after a put or an update with no expiry, eviction, print or lookup of the list in between, the program reads freed memory; the resulting list is the one it gets if that memory still reads as before. The port rewriting of `node_v_update` is not modelled, the address pair is an input.
- `Sha1.BlockRounds`: the eighty unrolled rounds are a loop of sixteen times five, which gives every register back its name; byte order conversions are arithmetic.
- `Dns.ReadName`: what it does once it follows a compression pointer, and labels with NUL bytes; this server emits neither.
- DNS headers, and records other than the data of a service record.
- `HashMap.Hash.Put`: keys are compared by content and owned by the map, whereas the program keeps the caller's pointer.
- Lifetime and refresh timers of cached targets, `cache_expire`, and the lists that `val_compact_list` and `cache_compact_list` copy out.
- Bit operators on id bytes are written digit by digit; those on 32-bit words in SHA-1 are bit-vector operators.
