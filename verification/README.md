# redis-py in Dafny

A model of the stateful parts of redis-py, the Python client for Redis, with proofs about
whole runs. Code that computes is modelled by functions, code that changes objects by classes
whose methods are proved against those functions; what the library promises is then proved
about the functions for all inputs, all interleavings or all runs. `dafny verify dfyconfig.toml`
checks everything.

## Layout

| file | what it models |
|---|---|
| `RespGrammar.dfy` | the Redis serialization protocol, version 2, as a printer and a parser over byte strings |
| `CommandPacker.dfy` | command encoding in chunks, and batches of commands |
| `SocketBuffer.dfy`, `Resp2Parser.dfy` | the blocking parser over a buffer that is rewound after a failure |
| `AsyncResp2Parser.dfy` | the asyncio parser, which is replayed after a cancellation |
| `LruCache.dfy` | the client-side cache index and its eviction policy |
| `CacheCoherence.dfy`, `CacheProxyConnection.dfy` | client-side caching as a protocol with the server and other clients, and the object that follows it |
| `Crc.dfy`, `MultiKeyCommands.dfy` | hash tags and the split of multi-key commands over slots |
| `ClusterSlots.dfy`, `SlotTable.dfy` | reading CLUSTER SLOTS replies, the slot table with its shared list objects, and its repair after MOVED |
| `RedirectLoop.dfy` | following redirections for one command, and the retries around it |
| `ClusterPipeline.dfy` | scattering a pipeline over nodes and gathering the replies |
| `Lock.dfy` | the distributed lock with its scripts and expiry |
| `Transaction.dfy`, `Pipeline.dfy` | the response list of MULTI/EXEC, and WATCH over the life of a pipeline |
| `PubSub.dfy` | subscriptions, pending sets and acknowledgements |
| `ConnectionPool.dfy`, `BlockingPool.dfy` | the pool and its Sentinel variant, and the pool that blocks |
| `Wrappers.dfy` | an optional value and an address |

What the outside world does is a parameter: bytes arrive in chunks of any size with any pattern
of timeouts and cancellations, the network is a script with one entry for each exchange, other
clients are arbitrary steps, CRC16 is an arbitrary function.

## Where the code does less than one would expect

Each of these is proved as an exact condition together with an input.

- A reply with a bare line feed in a status line is not returned although it is buffered
  (`Resp2Parser.Resp2Parser.ReadResponse`, `Resp2Parser.StallsThoughBuffered`).
- Two keys in one invalidation message raise a KeyError exactly when a cached entry depends on both
  (`LruCache.DeleteByRedisKeysMeans`).
- An error reply to a cacheable command leaves an IN_PROGRESS entry, and the same command is then
  neither sent nor answered (`CacheCoherence.ReadSettles`, `CacheCoherence.ErrorReplyStrandsTheCommand`).
- A connection that closes itself while being read leaves a cache that is no longer told about changes
  (`CacheCoherence.LostConnectionIsCoherentIff`).
- A MOVED reply that names the node already at the head drops a replica from the list and demotes the
  head (`SlotTable.PromotionPermutes`, `SlotTable.NodesManager.UpdateMovedSlots`).
- `initialize` replaces the maps and then fails when every reply is empty (`SlotTable.MapsLostIff`).
- A turn of the redirect loop that obtains no connection gives the connection of the turn before back
  a second time, possibly to another node's pool (`RedirectLoop.RedisCluster.ExecuteCommand`,
  `RedirectLoop.StrayRelease`).
- A cluster pipeline can execute an answered command twice (`ClusterPipeline.SentAgainIff`,
  `ClusterPipeline.StartsOverIff`).
- A lock with timeout zero is deleted by `reacquire`, which returns True (`Lock.RetimingMeans`).
- An aborted transaction can raise an object that is no exception (`Transaction.AbortRaisesErrorIff`).
- A WATCH that is not spelt in capitals, and a MULTI that is not sent by its own method, survive in a pooled
  connection (`Pipeline.ExecuteGivesBackIff`, `Pipeline.ResetGivesBackIff`, `Pipeline.LowerCaseWatchSurvives`,
  `Pipeline.QueuedMultiSurvives`, `Pipeline.RawMultiKeepsWatch`).
- `unsubscribe([])` unsubscribes from everything without the client noticing (`PubSub.EmptyListIsHarmlessIff`).
- A connection constructor that raises makes the pool's count too high for good
  (`ConnectionPool.RunConserves`, `BlockingPool.QueuePlusOut`,
  `ConnectionPool.RaisingConstructorUsesUpThePool`).

## Model

| member | source | states |
|---|---|---|
| `RespGrammar.PyIntOfDecimal` | redis/_parsers/resp2.py:47-62 | reading a printed integer with `int()` gives the integer back, for every integer |
| `RespGrammar.ParseReplyExtends` | redis/_parsers/resp2.py:24-68 | a parse that finished or rejected never changes its mind when more bytes arrive |
| `RespGrammar.StrictReplyIsReply` | redis/_parsers/resp2.py:24-68 | a parse that stops at bare line feeds agrees with the lenient one whenever it finishes |
| `RespGrammar.OnlyLoneLfDiffers` | redis/_parsers/resp2.py:24-68 | where the lenient parse finishes, the strict one finishes too or meets a bare line feed; there is no third outcome |
| `RespGrammar.ParseRender` | redis/_parsers/resp2.py:24-68 | every sendable reply tree, printed anywhere in a stream, is parsed back exactly and the parser stops right behind it; all error texts are sendable but those that end the connection, which are listed |
| `RespGrammar.ErrorReplyIff` | redis/_parsers/resp2.py:32-44 | an error line, wherever it stands, is the reply with that text, unless its code is LOADING, WRONGPASS or NOAUTH, or it is ERR with one of four messages: then it ends the connection |
| `RespGrammar.OtherLines` | redis/_parsers/resp2.py:45-68 | an array of length -1 is nil; an empty line, an unknown first byte and a text that is no number are rejected, each in its own way |
| `RespGrammar.PyIntSpaced` | redis/_parsers/resp2.py:47-62 | `int()` ignores blanks around a number and a plus sign before it |
| `RespGrammar.NoNumber` | redis/_parsers/resp2.py:47-62 | `int()` refuses a text that is empty or has any other character |
| `RespGrammar.WireForms` | redis/_parsers/resp2.py:24-68 | the printed forms, byte for byte |
| `RespGrammar.ParseRenderAll` | redis/_parsers/resp2.py:24-68 | the same for a run of replies |
| `RespGrammar.ArrivedRepliesAreSent` | redis/_parsers/resp2.py:12-68 | from any prefix of what a server printed, the replies that can be parsed are the first replies it printed |
| `RespGrammar.SentIsNeverBad` | redis/_parsers/resp2.py:24-68 | no prefix of what a server printed is ever rejected |
| `RespGrammar.NextItem` | redis/_parsers/resp2.py:63-68 | how a parsed prefix of a run goes on when more text has arrived and one more reply is looked at |
| `CommandPacker.PackIsCanonical` | redis/connection.py:91-134 | whatever the cutoff, the joined chunks of a command are its canonical array of bulk strings |
| `CommandPacker.CommandCarries` | redis/connection.py:99-104 | a str name, or a bytes name with a space, becomes one bulk string for each of its blank-separated words, in order, then one for each argument; any other name stays whole |
| `CommandPacker.SplitsSpaced` | redis/connection.py:99-102 | splitting a name gives back the words it was put together from, whatever the blanks between them |
| `CommandPacker.EveryNameIsSpaced` | redis/connection.py:99-102 | every name is such words with blanks between them |
| `CommandPacker.ChunksStayShort` | redis/connection.py:106-134 | apart from arguments that travel alone no chunk is longer than two cutoffs and two length lines |
| `CommandPacker.LongArgumentsStayWhole` | redis/connection.py:108-121 | an argument above the cutoff, or a memory view, is emitted as one chunk of its own |
| `CommandPacker.PythonRespSerializer.Pack` | redis/connection.py:91-134 | the chunk loop: the joined output is the canonical encoding, and what it parses to carries the arguments as `CommandCarries` says |
| `CommandPacker.AddCommand` | redis/connection.py:631-647 | one command joins the batch: no byte is lost, reordered or doubled, the buffer stays within twice the cutoff, and what is put out is a short piece or an oversized chunk of that command |
| `CommandPacker.PackCommands` | redis/connection.py:625-653 | the joined batch parses back to the whole command list, each with its own words and arguments; every piece is at most twice the cutoff or one oversized chunk |
| `SocketBuffer.SocketBuffer.ReadFromSocket` | redis/_parsers/socket.py:47-92 | succeeds exactly when enough bytes arrive before the next timeout, would-block or empty recv, appending what recv returned; otherwise it has taken everything in front of that fault and raises or returns False as the fault says |
| `SocketBuffer.SocketBuffer.CanRead` | redis/_parsers/socket.py:94-97 | True exactly when bytes are buffered or arrive first, False exactly when a timeout or would-block comes first |
| `SocketBuffer.SocketBuffer.Read` | redis/_parsers/socket.py:99-108 | for any length, also a negative one: which bytes are returned and where the cursor stands; fails exactly when a fault comes before enough bytes |
| `SocketBuffer.SocketBuffer.Readline` | redis/_parsers/socket.py:110-118 | returns the text up to the first CR LF whatever the chunking; a line without bare line feeds is returned whenever it arrives before the next fault, and without a recv exactly when it is buffered |
| `SocketBuffer.SocketBuffer.Rewind` | redis/_parsers/socket.py:126-130 | puts the cursor back without touching the bytes |
| `SocketBuffer.SocketBuffer.Purge` | redis/_parsers/socket.py:132-149 | drops bytes only when all of them have been read |
| `Resp2Parser.Resp2Parser.ReadReply` | redis/_parsers/resp2.py:24-68 | the recursion over the shared buffer returns the pure parse of the buffered text; a strict reply that arrives before the next fault is returned; it fails only at that fault or on a malformed reply; an error line that arrives is returned or ends the connection as `ErrorReplyIff` says |
| `Resp2Parser.Resp2Parser.ReadItems` | redis/_parsers/resp2.py:63-68 | the element loop: the same for that many replies |
| `Resp2Parser.Resp2Parser.ReadResponse` | redis/_parsers/resp2.py:12-22 | a returned reply is the pure parse of the whole stream at the cursor; a failure takes no byte away and happens only at the next fault or on a malformed reply; a strict reply that arrives before that fault is returned; with a silent socket a buffered reply is returned exactly when it has no bare line feed; an error line that has arrived is returned, or raises a ConnectionError exactly for the listed texts; a malformed line raises as it should |
| `Resp2Parser.Run` | redis/_parsers/resp2.py:12-68 | for every stream of sendable replies, every chunking and every pattern of faults and retried calls: the values are the sent replies in order, there are no more failures than faults until every reply that arrived whole has been returned, so enough calls return all that was sent |
| `Resp2Parser.CallOnce` | redis/_parsers/resp2.py:12-22 | one call of such a run: whenever it fails, every reply that has arrived whole has been returned before, and it costs one fault, unless the peer has nothing more to say |
| `Resp2Parser.BareLineFeedStalls` | redis/_parsers/socket.py:110-118 | an input on which the two parses differ |
| `Resp2Parser.StallsThoughBuffered` | redis/_parsers/socket.py:110-118 | with that reply wholly buffered the parser asks the socket and raises |
| `AsyncResp2Parser.AsyncResp2Parser.ReadBytes` | redis/_parsers/base.py:189-207 | takes from the buffer or awaits the missing bytes; a cancellation takes nothing |
| `AsyncResp2Parser.AsyncResp2Parser.ReadLine` | redis/_parsers/base.py:209-225 | the line of the buffer, or the line that the stream delivers, which is the strict line |
| `AsyncResp2Parser.AsyncResp2Parser.ReadReply` | redis/_parsers/resp2.py:87-132 | a replay from position 0 over buffer and chunks gives the parse of the text taken so far plus the stream |
| `AsyncResp2Parser.AsyncResp2Parser.ReadResponse` | redis/_parsers/resp2.py:74-85 | a returned reply is the parse of the stream and exactly its bytes were taken; a cancelled call has lost nothing; it fails only when the stream holds no further well-formed reply; an error line is returned, or ends the connection exactly for the listed texts |
| `AsyncResp2Parser.LineFromStream` | redis/_parsers/base.py:209-225 | what `readline` of the stream delivers ends in CR LF exactly when the strict line is there |
| `AsyncResp2Parser.Run` | redis/_parsers/base.py:149-225 | any number of cancellations at any awaits: the values are the sent replies in order, each interrupted call costs one cancelled await, so enough calls return everything; the stream stands right behind them, and a call fails only when everything was returned |
| `LruCache.LruInclusion` | redis/cache.py:168-221 | after any sequence of operations the cache of size n is a sub-map of the one of size m >= n with the same entries in the same recency order, each within its bound |
| `LruCache.HitsAreIncluded` | redis/cache.py:180-187 | a hit in the smaller cache is a hit with the same entry in the larger one |
| `LruCache.IndexByRecency` | redis/cache.py:243-267 | the index is ordered by last use over every run, so eviction takes the least recently used entry |
| `LruCache.DeleteByRedisKeysMeans` | redis/cache.py:201-216 | several redis keys at once: a KeyError exactly when some entry depends on two of them, otherwise exactly the entries that depend on any of them go |
| `LruCache.OneKeyIsSafe` | redis/cache.py:201-216 | one redis key never raises and removes exactly the entries that depend on it |
| `LruCache.TwoKeysInOneMessageFail` | redis/cache.py:201-216 | the smallest failing case |
| `LruCache.DefaultCache.Assign` | redis/cache.py:168-178 | dictionary assignment keeps the place of a known key and all other entries |
| `LruCache.DefaultCache.MoveToEnd` | redis/cache.py:261-267 | the touched entry goes to the end, the others keep their order |
| `LruCache.DefaultCache.EvictNext` | redis/cache.py:243-246 | the oldest entry is removed and named |
| `LruCache.DefaultCache.EvictMany` | redis/cache.py:248-259 | removes the oldest `count` entries; a count above the size is refused |
| `LruCache.DefaultCache.Set` | redis/cache.py:168-178 | refused for commands that may not be cached; otherwise newest at the end; any other entry stays, unless it is the oldest one of a full cache that gets a new key |
| `LruCache.DefaultCache.Get` | redis/cache.py:180-187 | a hit is returned and becomes the most recent entry, and nothing else moves |
| `LruCache.DefaultCache.DeleteByCacheKeys` | redis/cache.py:189-199 | answers for each key whether it was still there, repeated keys included, and removes them all |
| `LruCache.DefaultCache.CollectMatches` | redis/cache.py:205-212 | the nested loops collect a matching entry once for each listed key it depends on |
| `LruCache.DefaultCache.DeleteByRedisKeys` | redis/cache.py:201-216 | the method raises or removes as `DeleteByRedisKeysMeans` says |
| `LruCache.DefaultCache.Flush` | redis/cache.py:218-221 | the number of entries is returned and nothing is left |
| `LruCache.PutMeans` | redis/cache.py:168-178 | what storing leaves: the new entry last, the others in their order, and exactly the oldest one gone if the cache was full and the key is new |
| `LruCache.DeleteAllMeans` | redis/cache.py:189-199 | deleting several keys leaves exactly the other entries, in their order |
| `CacheCoherence.StepKeepsCoherent` | redis/connection.py:811-934 | every step of client, server and other clients keeps the coherence invariant, for any number of messages arrived |
| `CacheCoherence.RunKeepsCoherent` | redis/connection.py:811-934 | so does every run |
| `CacheCoherence.CacheIsCoherent` | redis/connection.py:811-934 | over every run a VALID entry is the reply the server would give now, or an invalidation that concerns it is in the channel |
| `CacheCoherence.DrainedHitIsCurrent` | redis/connection.py:845-901 | a hit taken after the channel was drained is the current value |
| `CacheCoherence.UntrackKeepsCoherent` | redis/connection.py:919-934 | the server forgetting a tracked key announces it, which is enough |
| `CacheCoherence.LostConnectionIsCoherentIff` | redis/connection.py:798-801 | a connection that closes behind the proxy leaves the cache coherent exactly when it holds no VALID entry |
| `CacheCoherence.StaleHitAfterLostConnection` | redis/connection.py:798-801 | a run in which such a loss gives a stale hit |
| `CacheCoherence.SentOrCached` | redis/connection.py:811-857 | after a send there is something to read exactly when no IN_PROGRESS entry of an earlier command was found |
| `CacheCoherence.SettledNeverStalls` | redis/connection.py:811-857 | from a settled client every command is sent or answered from the cache |
| `CacheCoherence.ReadSettles` | redis/connection.py:862-901 | reading settles the client exactly when the reply was no error for an entry that is still there |
| `CacheCoherence.SendMeans` | redis/connection.py:811-857 | entry by entry: a command goes out unless an entry is held that no arrived message concerns; a placeholder is held for it; arrived messages remove what they concern and nothing else goes while there is room |
| `CacheCoherence.ReadMissMeans` | redis/connection.py:862-901 | entry by entry: a value is kept exactly if an entry for its command has survived the messages ahead of it, null removes that entry, an error leaves it |
| `CacheCoherence.ErrorReplyStrandsTheCommand` | redis/connection.py:845-857 | after an error reply the same command is neither sent nor answered |
| `CacheProxyConnection.CacheProxyConnection.OnInvalidation` | redis/connection.py:928-934 | the callback removes what one key invalidates, or everything |
| `CacheProxyConnection.CacheProxyConnection.ReadConnection` | redis/_parsers/resp3.py:39-136 | pushes in front of the reply are delivered to the cache in order before the reply is returned |
| `CacheProxyConnection.CacheProxyConnection.ProcessPendingInvalidations` | redis/connection.py:924-926 | exactly the messages that have arrived are delivered |
| `CacheProxyConnection.CacheProxyConnection.SendCommand` | redis/connection.py:811-857 | does what the send step of the protocol says, and refuses a cacheable command without its keys |
| `CacheProxyConnection.CacheProxyConnection.ReadResponse` | redis/connection.py:862-901 | does what the read step says: a copy of the cached value, or the reply with the entry turned VALID, dropped or left alone |
| `CacheProxyConnection.CacheProxyConnection.Disconnect` | redis/connection.py:798-801 | disconnecting through the proxy flushes the cache |
| `Crc.KeySlot` | redis/crc.py:12-23 | the slot is below the number of slots |
| `Crc.TaggedHashesTag` | redis/crc.py:12-23 | a key with a first brace, a non-empty tag and a closing brace is hashed by the tag alone |
| `Crc.UntaggedHashesAll` | redis/crc.py:12-23 | any other key is hashed as a whole |
| `Crc.SameTagSameSlot` | redis/crc.py:12-23 | keys with the same tag share a slot |
| `MultiKeyCommands.SlotIsHashed` | redis/cluster.py:944-950 | the slot used for partitioning is the checksum of the tag, or of the whole key, modulo 16384 |
| `MultiKeyCommands.PartitionKeysBySlot` | redis/commands/cluster.py:106-114 | the dictionary: slots in order of first occurrence, the keys of each slot in the caller's order |
| `MultiKeyCommands.PartitionPairsBySlot` | redis/commands/cluster.py:116-126 | the same for alternating keys and values |
| `MultiKeyCommands.ReorderKeysByCommand` | redis/commands/cluster.py:145-156 | the replies per slot put back into the caller's order are the lookups of the caller's keys |
| `MultiKeyCommands.MGetNonatomic` | redis/commands/cluster.py:158-179 | the pointwise lookup in the caller's order, duplicates included; every issued command has keys of one slot |
| `MultiKeyCommands.SplitCount` | redis/commands/cluster.py:200-220 | EXISTS and TOUCH: the sum over the slots is the count of the unsplit command, repetitions included |
| `MultiKeyCommands.SplitDelete` | redis/commands/cluster.py:200-233 | DEL and UNLINK: the total and the database left are those of the unsplit command |
| `MultiKeyCommands.DeleteMeans` | redis/commands/cluster.py:222-233 | deleting counts the distinct keys that were there and removes exactly those |
| `MultiKeyCommands.MSetNonatomic` | redis/commands/cluster.py:181-198 | the database afterwards is the old one overwritten by the whole mapping; every issued command has keys of one slot |
| `MultiKeyCommands.MSetPairs` | redis/commands/cluster.py:181-198 | MSET on alternating pairs overwrites the database with the mapping restricted to those keys |
| `ClusterSlots.FirstCoverStays` | redis/cluster.py:1601-1603 | the first row that covers a slot keeps it, however many rows are read afterwards |
| `ClusterSlots.FirstRowsRead` | redis/cluster.py:1567-1580 | the rows of the first startup node that answers are read first, in order, and a primary without a host is that node |
| `ClusterSlots.RowsWereSent` | redis/cluster.py:1537-1580 | every row read was sent by a startup node, with an empty host replaced by the sender and nothing else changed |
| `ClusterSlots.PrimariesHaveHosts` | redis/cluster.py:1567-1580 | if every startup node has a host, so has every primary |
| `ClusterSlots.DisagreementsGrow` | redis/cluster.py:1604-1617 | disagreements are never taken back |
| `ClusterSlots.AgreeingReplies` | redis/cluster.py:1604-1617 | replies that name one primary for each slot cause no disagreement |
| `ClusterSlots.FirstNamed` | redis/cluster.py:1504-1521 | the first node filed is the primary of the first row and keeps that role |
| `ClusterSlots.LaterPrimaryStaysReplica` | redis/cluster.py:1504-1521 | a node listed as a replica before it is listed as a primary is filed as a replica, although it heads a list |
| `SlotTable.PromotedReplica` | redis/cluster.py:1395-1404 | the list edit of a failover: target to the head, old head to the end, the others in order |
| `SlotTable.PromotedHead` | redis/cluster.py:1395-1404 | the same edit when the target heads the list already: the second node is lost |
| `SlotTable.PromotionPermutes` | redis/cluster.py:1395-1404 | the edit permutes the list and keeps it free of duplicates exactly when the target is not the head of a longer list |
| `SlotTable.SecondMovedForgetsReplica` | redis/cluster.py:1392-1404 | two MOVED replies for slots of one shard lose the old primary |
| `SlotTable.NodesManager.PromoteReplica` | redis/cluster.py:1392-1407 | exactly the slots that hold the same list object change; the old head becomes a replica; the default node follows |
| `SlotTable.NodesManager.ReplaceRow` | redis/cluster.py:1408-1412 | exactly one slot changes and gets a list of its own |
| `SlotTable.NodesManager.UpdateMovedSlots` | redis/cluster.py:1377-1414 | every row after the patch, the head of the slot, default node, dictionary, and the failing case in which the node is added and the reply stays recorded; the old head of a patched list is a replica, and the target ends as a primary exactly when it did not head the list already |
| `SlotTable.NodesManager.RepairedDistinct` | redis/cluster.py:1392-1412 | lists stay duplicate-free exactly when the target was not the head of a longer list |
| `SlotTable.NodesManager.GetNodeFromSlot` | redis/cluster.py:1416-1449 | the recorded reply is worked in first; then the head, or a replica, of the slot; the two error cases exactly |
| `SlotTable.NodesManager.GetOrCreateNode` | redis/cluster.py:1504-1521 | a connected node is reused, another is new, and only the first mention writes the role |
| `SlotTable.NodesManager.FillSlots` | redis/cluster.py:1601-1617 | the slot loop: first row wins, disagreements counted, stopped at the sixth |
| `SlotTable.NodesManager.ReadAll` | redis/cluster.py:1537-1623 | startup nodes are asked in order until the rows cover every slot; reachability and coverage are reported exactly |
| `SlotTable.NodesManager.Initialize` | redis/cluster.py:1523-1659 | on return every slot maps to the nodes of the first row covering it, slots share a list object exactly when they share the row, at most five disagreements were seen and full coverage holds if required; each exception exactly when; maps unchanged on all exceptions but one; the slots of the rows that the first answering node sent have the primary of the first such row at the head, with the host of that node where the row has none |
| `SlotTable.NodesManager.AdoptedServes` | redis/cluster.py:1567-1603 | an adopted table serves the rows that were sent, slot by slot, with every host filled in |
| `SlotTable.MapsLostIff` | redis/cluster.py:1640-1654 | the maps are replaced although the call fails exactly when a node answers, no row is read and full coverage is not required |
| `SlotTable.EmptyReplyLosesTheMaps` | redis/cluster.py:1640-1654 | one node with an empty reply is such a case |
| `SlotTable.NodesManager.AdoptedDistinct` | redis/cluster.py:1567-1603 | rows without repetition give lists without repetition |
| `RedirectLoop.RedisCluster.PatchOrReload` | redis/cluster.py:1193-1209 | a MOVED reply is recorded, or every so often the table is read anew |
| `RedirectLoop.RedisCluster.OnMoved` | redis/cluster.py:1193-1209 | in both cases the next look-up of the slot gives the node that the reply named, if the slot is in the table and reloading tells the truth |
| `RedirectLoop.RedisCluster.ChooseTarget` | redis/cluster.py:1145-1156 | the node after an ASK reply, after a MOVED reply, or the same one; an unknown ASK node fails |
| `RedirectLoop.RedisCluster.ExecuteCommand` | redis/cluster.py:1132-1233 | at most sixteen sends, all but the last redirected; ASKING exactly after ASK replies and to the named node; a reply is returned exactly when one came; in which turn it ends is told from the table and the script alone; each connection goes back once, and one of them twice exactly when `GivesBackTwice` holds; with truthful nodes two sends suffice and the owner heads the slot; how it ends, and after an exception the table that was read anew, are told from the last turn |
| `RedirectLoop.RedisCluster.OnFailure` | redis/cluster.py:1176-1222 | after a connection error or timeout the table is read anew from the startup nodes less the failed one, after CLUSTERDOWN from all of them, and the exception goes on, or the one of that reading; otherwise nothing changes |
| `RedirectLoop.RedisCluster.OneRun` | redis/cluster.py:1084-1110 | one run of the inner loop at the primary of the slot, with its end and the table that it leaves |
| `RedirectLoop.UnsentIsLast` | redis/cluster.py:1132-1233 | the condition of the second release, in terms of table and script: everything sent was redirected, at least once, and then no connection is obtained or no node is found |
| `RedirectLoop.MovedThenUnreachable` | redis/cluster.py:1145-1160 | an input: MOVED, and then no connection to the new node |
| `RedirectLoop.AskedThenUnreachable` | redis/cluster.py:1145-1160 | another one, with ASK |
| `RedirectLoop.StrayRelease` | redis/cluster.py:1228-1230 | that run gives a connection of one node to the pool of another |
| `RedirectLoop.RedisCluster.InternalExecuteCommand` | redis/cluster.py:1062-1130 | the outer loop always returns or raises, after at most four runs, each after one that failed with an exception that allows it (the three classes themselves, not derived ones); the next run starts from the table read anew, at the primary of the first row with the slot; such an exception is raised only by the fourth run; from any table that has the slot, also with a MOVED reply not worked in yet, truthful nodes answer within two sends |
| `RedirectLoop.DeadPrimaryIsLeft` | redis/cluster.py:1179-1192 | a dead primary and one other startup node that names a new owner: the second run goes to the owner and its reply is returned |
| `RedirectLoop.RedisCluster.PendingLinks` | redis/cluster.py:1112-1130 | what an exception leaves for the next run: the look-up works exactly if the rows read cover the slot, and gives the primary of the first such row |
| `ClusterPipeline.ResponsesAreAligned` | redis/cluster.py:2110-2282 | index i of the responses is the reply read for command i, or what command i got when sent once more, the latter exactly for the commands that are sent again |
| `ClusterPipeline.SentAgainIff` | redis/cluster.py:2227-2234 | a command is sent once more exactly when its reply is MOVED, ASK or TRYAGAIN, or its connection broke (ConnectionError, TimeoutError) for any command on it |
| `ClusterPipeline.AnsweredAndSentAgain` | redis/cluster.py:2518-2524 | so an answered command can be executed twice |
| `ClusterPipeline.StartsOverIff` | redis/cluster.py:2090-2108 | the whole pipeline is sent over exactly when a node cannot be reached, or errors are raised and the first one left is a ConnectionError or ClusterDownError |
| `ClusterPipeline.OutcomeMeans` | redis/cluster.py:2110-2282 | how a round ends: unreachable node, aborted single send, the results, or the first error among them, each exactly when |
| `ClusterPipeline.AnsweredAndStartedOver` | redis/cluster.py:2090-2108 | a command with its reply is sent again because a later one got CLUSTERDOWN |
| `ClusterPipeline.NodeFailureIff` | redis/cluster.py:2474-2526 | the connection of a node fails exactly when writing failed or some reply on it breaks it |
| `ClusterPipeline.NodeCommands.Write` | redis/cluster.py:2474-2494 | results are cleared first; a failing write becomes the result of every command |
| `ClusterPipeline.NodeCommands.ReadReplies` | redis/cluster.py:2496-2526 | each command gets its own reply in order, or all get the exception that broke the connection; nothing is left unread |
| `ClusterPipeline.BuildNodes` | redis/cluster.py:2132-2181 | each node gets exactly the commands assigned to it, in order, on a connection of its own; fails exactly when a node cannot be connected to |
| `ClusterPipeline.WriteAll` | redis/cluster.py:2191-2195 | all nodes are written to; each connection then carries the replies to its own commands |
| `ClusterPipeline.ReadAll` | redis/cluster.py:2197-2219 | every command has its result and every connection is empty |
| `ClusterPipeline.SendSingly` | redis/cluster.py:2227-2265 | exactly the commands with a retryable result are sent again, in queue order, up to the first that aborts |
| `ClusterPipeline.ClusterPipeline.SendOnce` | redis/cluster.py:2110-2282 | one round comes to what the alignment functions say; which commands were sent again, whatever it ends with; only connections without unread replies are given back |
| `ClusterPipeline.ClusterPipeline.SendClusterCommands` | redis/cluster.py:2073-2108 | at most four rounds; an earlier round was started over, and such an exception is raised only by the last |
| `ClusterPipeline.ClusterPipeline.Execute` | redis/cluster.py:2031-2039 | the queue is empty afterwards, whatever happens |
| `Lock.StepKeepsInv` | redis/lock.py:27-74 | every command, lost reply and clock tick keeps: an active lease is backed by the server key |
| `Lock.LeasesExclude` | redis/lock.py:173-323 | over every interleaving of any number of clients with distinct tokens no two leases are active at once |
| `Lock.HolderIsSafe` | redis/lock.py:173-323 | while a lease is active the server key is the holder's and no step of another client changes it or succeeds |
| `Lock.OnlyOwnKeyIsTouched` | redis/lock.py:27-74 | a key is deleted or retimed only by the client whose token it carries, also after its lease has lapsed |
| `Lock.AcquireAndRelease` | redis/lock.py:220-265 | acquire succeeds exactly when no live key is there, release exactly on the own key |
| `Lock.RetimingMeans` | redis/lock.py:284-323 | extend and reacquire succeed exactly on the own key (extend: with an expiry), and leave the client owning it exactly when the new time to live is positive |
| `Lock.MillisMeans` | redis/lock.py:223 | seconds become milliseconds by truncation towards zero |
| `Lock.ZeroTimeout` | redis/lock.py:284-323 | timeout zero: reacquire returns True and deletes the key, extend calls an owned key not owned |
| `Lock.LapsedHolder` | redis/lock.py:27-37 | a lapsed holder cannot release its successor's lock |
| `Lock.Lock.Acquire` | redis/lock.py:173-218 | the retry loop: which try ended it and why, the token stored only on success |
| `Lock.Lock.DoAcquire` | redis/lock.py:220-228 | takes the lock exactly when it is free; the key is then the own one, until the timeout has passed or for ever; nothing else changes it |
| `Lock.Lock.Locked` | redis/lock.py:230-234 | true exactly when nobody could acquire the lock now, whatever the token and timeout |
| `Lock.Lock.Owned` | redis/lock.py:236-246 | true exactly when a release would succeed now |
| `Lock.Lock.Release` | redis/lock.py:248-265 | does what the release step of the protocol says |
| `Lock.Lock.Extend` | redis/lock.py:267-297 | does what the extend step says |
| `Lock.Lock.Reacquire` | redis/lock.py:299-323 | does what the reacquire step says |
| `Transaction.InsertingAligns` | redis/client.py:1405-1407 | inserting the notes in ascending order puts every entry at the index of its own command |
| `Transaction.AlignedAt` | redis/client.py:1405-1407 | the entry at index i is the placeholder of command i if it was not sent, its error if it was refused, else the EXEC entry that counts the accepted commands before it |
| `Transaction.TransactionIsAligned` | redis/client.py:1362-1413 | after a successful MULTI the list has one entry for each command, in order, exactly when EXEC has one for each accepted command |
| `Transaction.FailedMultiIsNoticed` | redis/client.py:1409-1413 | an error of MULTI makes the count wrong |
| `Transaction.ExecDecides` | redis/client.py:1390-1418 | WatchError exactly if EXEC answers nil; a response only from a list; the error of EXEC itself; with raise_on_error the first error in the list |
| `Transaction.AbortRaises` | redis/client.py:1390-1396 | which error an aborted transaction raises: that of MULTI, else of the first command not accepted, else of EXEC |
| `Transaction.AbortRaisesErrorIff` | redis/client.py:1390-1396 | an aborted transaction raises an object that is no exception exactly when a command that is not sent comes before every refused one |
| `Transaction.EmptyThenRefused` | redis/client.py:1376-1396 | the smallest such pipeline |
| `Transaction.ReadQueued` | redis/client.py:1370-1388 | reads one reply for MULTI and for each command sent, noting errors and placeholders by index |
| `Transaction.ReadExec` | redis/client.py:1390-1418 | the end of the transaction for each kind of EXEC reply: WatchError exactly for nil, a response only from a list with as many entries as commands, the first noted error after an abort |
| `Transaction.ReadTransaction` | redis/client.py:1370-1418 | one reply is read for everything sent on every path but a lost connection; WatchError exactly if EXEC answers nil |
| `Pipeline.PlainPipelineKnown` | redis/client.py:1431-1467 | a pipeline without WATCH and MULTI keeps: what the server watches, the flag knows |
| `Pipeline.PlainTransactionKnown` | redis/client.py:1362-1399 | so does a transaction, whatever EXEC answers |
| `Pipeline.LeftBehindIff` | redis/client.py:1431-1467 | after any commands, MULTI, EXEC, DISCARD, WATCH and UNWATCH in any order: exactly when the server is left inside a transaction, and exactly when it is left watching |
| `Pipeline.FlagMissesWatchIff` | redis/client.py:1461-1467 | the flag is wrong about queued commands on a clean connection exactly when they leave a watch or a transaction behind |
| `Pipeline.TransactionFlagIff` | redis/client.py:1390-1399 | exactly when a transaction lowers the flag |
| `Pipeline.FlagAllIff` | redis/client.py:1461-1467 | after the replies of a pipeline the flag is up exactly when a WATCH raised it, or it was up, and no UNWATCH, EXEC or DISCARD that was not refused came later |
| `Pipeline.ChangedKeyIsNoticed` | redis/client.py:1401-1402 | execute ends in WatchError exactly if, in the first exchange that is not lost, EXEC ends a transaction and answers nil |
| `Pipeline.OnlyTransactionsNotice` | redis/client.py:1431-1445 | a pipeline without MULTI never does |
| `Pipeline.EachIsAnswered` | redis/client.py:1362-1388 | the reply read for a queued command is the answer to that command, given what was sent before it |
| `Pipeline.PlainOutcome` | redis/client.py:1431-1454 | without MULTI: the value, error or placeholder of each command in order, or the first error raised |
| `Pipeline.ResetGivesBackIff` | redis/client.py:1256-1277 | reset gives a connection back watched exactly when it was watched and the flag is down or the UNWATCH is only queued; inside a transaction exactly when it was and the flag is down or UNWATCH was served |
| `Pipeline.ExecuteGivesBackIff` | redis/client.py:1510-1535 | the same for execute, for all queued commands: exactly when the commands sent leave a watch, or a transaction, behind |
| `Pipeline.FailedExecuteGivesBackClean` | redis/client.py:1488-1535 | any other end of execute gives back a closed or fresh connection, or none |
| `Pipeline.LowerCaseWatchSurvives` | redis/client.py:1461-1467 | a run that gives back a watched connection |
| `Pipeline.QueuedMultiSurvives` | redis/client.py:1431-1445 | a run that gives back a connection inside a transaction |
| `Pipeline.RawMultiKeepsWatch` | redis/client.py:1256-1277 | a run that gives back one that is both |
| `Pipeline.Pipeline.Reset` | redis/client.py:1256-1277 | the whole state after reset, with the connection that is given back, or kept when UNWATCH fails with anything but a lost connection |
| `Pipeline.Pipeline.StartTransaction` | redis/client.py:1283-1294 | refused inside a transaction or behind queued commands |
| `Pipeline.Pipeline.ExecuteCommand` | redis/client.py:1296-1299 | at once while watching, with the result of `Immediate`; queued otherwise |
| `Pipeline.Pipeline.Immediate` | redis/client.py:1301-1345 | the retry rule: answered by the first try that is not lost, if the policy allows that many; a lost connection is fatal while watching; result, flag and connection in every case; the flag goes up and down with the commands that are not refused |
| `Pipeline.Pipeline.ExecuteTransaction` | redis/client.py:1362-1399 | the end is that of the replies the server gives; the flag is cleared exactly when EXEC was read without an error; the connection is closed exactly when replies are lost or their number is wrong; WatchError exactly if EXEC ends a transaction and answers nil |
| `Pipeline.Pipeline.ExecutePipeline` | redis/client.py:1431-1445 | the responses and the flag are those of the replies in order: for each command its value, its error or its placeholder |
| `Pipeline.Pipeline.Execute` | redis/client.py:1510-1535 | result and state after execute: which try ended it, on which connection, with which result, and which connection is given back; WatchError exactly when a watched key has changed |
| `Pipeline.RunKeepsTidy` | redis/client.py:1256-1552 | over any sequence of calls in which WATCH and MULTI are sent by their own methods, no connection goes back with a WATCH or MULTI on it |
| `Pipeline.Pipeline.Run` | redis/client.py:1256-1552 | any sequence of calls does what the calls come to, one after another, with their results; so the same holds of the object |
| `PubSub.StepKeepsInv` | redis/client.py:945-982 | every call, server step and acknowledgement keeps agreement, except unsubscribing with an empty list |
| `PubSub.AgreesWithCalls` | redis/client.py:945-982 | over every run the last call about a topic was a subscription exactly when the topic is in the dictionary and not pending |
| `PubSub.DrainedAgreesWithServer` | redis/client.py:1101-1121 | when everything has arrived the dictionary holds exactly the server's subscriptions, which are the topics last subscribed, and nothing is pending |
| `PubSub.StepKeepsFlagIff` | redis/client.py:1118-1121 | the flag says that there are topics; only subscribing without names to nothing can make it wrong |
| `PubSub.FlagIsExact` | redis/client.py:1118-1121 | so over every run whose subscriptions have names the flag goes down exactly with the last topic |
| `PubSub.EmptyListIsHarmlessIff` | redis/client.py:971-982 | unsubscribing with an empty list keeps the agreement exactly when no topic of the kind is live |
| `PubSub.EmptyListLosesAgreement` | redis/client.py:971-982 | such a run ends quiet with the client believing in a subscription the server has dropped |
| `PubSub.PubSub.Subscribe` | redis/client.py:945-969 | does what the subscribing step says: the named topics get the handler and are no longer pending, nothing else changes |
| `PubSub.PubSub.Unsubscribe` | redis/client.py:971-982 | does what the unsubscribing step says: the named topics, or all of the kind, become pending, and no other one |
| `PubSub.PubSub.HandleMessage` | redis/client.py:1101-1121 | does what the handling step says: a pending topic goes, and the flag goes down when none is left |
| `ConnectionPool.ConnectionPool.MakeConnection` | redis/connection.py:1452-1463 | refused exactly at the maximum; the count goes up before the constructor can raise |
| `ConnectionPool.ConnectionPool.GetConnection` | redis/connection.py:1410-1441 | the whole state and result of a get: taken or made, connected, connected once more if there is data to read, released if that fails |
| `ConnectionPool.GetKeepsSane` | redis/connection.py:1410-1441 | whether it succeeds or fails to connect, the count stays idle plus in use, but for a raising constructor; a connection handed out is connected, and goes to the master in a Sentinel pool |
| `ConnectionPool.GetMeans` | redis/connection.py:1410-1441 | exactly when a get succeeds, in terms of the pool and of what connecting meets |
| `ConnectionPool.ConnectionPool.Release` | redis/connection.py:1465-1487 | of any connection: back to the idle ones if it is of this process and on the master, closed and uncounted otherwise; the balance is kept exactly for connections in use, and a connection becomes idle twice exactly when it was idle |
| `ConnectionPool.ConnectionPool.GetMasterAddress` | redis/sentinel.py:109-118 | a new master disconnects every idle connection and nothing else |
| `ConnectionPool.ReachedIff` | redis/sentinel.py:44-60 | exactly when connecting succeeds: the connection is up, or a try works, or a try comes up half and another follows |
| `ConnectionPool.ReachedMaster` | redis/sentinel.py:44-60 | a connection that comes up goes to the master that is known then |
| `ConnectionPool.ConnectionPool.Connect` | redis/sentinel.py:44-60 | the retry loop ends as `Reached` says, for the connection, the master and the idle connections |
| `ConnectionPool.RunConserves` | redis/connection.py:1410-1487 | over any sequence of gets and releases: count = idle + out + gets whose constructor raised, within the maximum; idle and used ones are disjoint; those out are the ones handed out and not given back; idle connected ones go to the master |
| `ConnectionPool.RunPool` | redis/connection.py:1410-1487 | a run of the object has exactly those states and outcomes |
| `ConnectionPool.RaisingConstructorUsesUpThePool` | redis/connection.py:1452-1463 | a pool for one connection that hands out none any more |
| `BlockingPool.TakeKeepsSound` | redis/connection.py:1617-1634 | the newest entry is taken, and a connection is made only when all that were made are out |
| `BlockingPool.BlockingConnectionPool.Release` | redis/connection.py:1658-1677 | back on top of the queue, dropped when it is full; for a connection of another process a placeholder, which raises when the queue is full |
| `BlockingPool.BlockingConnectionPool.GetConnection` | redis/connection.py:1606-1656 | the whole state and result of a get; a failure to connect puts the connection back |
| `BlockingPool.GetMeans` | redis/connection.py:1606-1656 | exactly when a get succeeds, finds nothing, or fails to construct or to connect |
| `BlockingPool.RunConserves` | redis/connection.py:1571-1677 | over any sequence of gets and releases: queue and checked-out connections are the maximum less one for each get whose constructor raised; placeholders lie below connections; as many connections were made as were out at once at the peak |
| `BlockingPool.QueuePlusOut` | redis/connection.py:1571-1582 | spelt out, with the idle ones |
| `BlockingPool.RunPool` | redis/connection.py:1571-1677 | a run of the object has exactly those states and outcomes |
| `BlockingPool.RaisingConstructorUsesUpTheQueue` | redis/connection.py:1617-1634 | a pool for one connection that hands out none any more |

## Left out

- AsyncResp2Parser.AsyncResp2Parser.ReadBody: a bulk length below -1 is rejected here, while redis-py asks the stream for that many bytes; such a length is never sent by a server.
- AsyncResp2Parser.AsyncResp2Parser.ReadResponse: every way in which a call fails is one result; the blocking parser tells them apart.
- Resp2Parser.Resp2Parser.ReadResponse: says nothing about the value returned for a bulk length below -1, which is never sent.
- RedirectLoop.RedisCluster.ExecuteCommand: the reply to ASKING itself is taken to be no redirection, and the slot of the command is a parameter.
- RedirectLoop.RedisCluster.OnFailure: closing the connection object and the pauses before another try are not modelled.
- RedirectLoop.RedisCluster.InternalExecuteCommand: commands for several nodes or with given target nodes, and the replacement of the default node, are not modelled.
- SlotTable.NodesManager.GetNodeFromSlot: round-robin reads from replicas are not modelled; a replica is an arbitrary one.
- SlotTable.NodesManager.Initialize: roles written to nodes of the old table before an exception are not described; address remapping and the renaming of localhost are taken as done.
- ClusterPipeline.ClusterPipeline.SendOnce: response callbacks, the reload of the table before single sends, and exceptions of reads that are no RedisError are not modelled.
- Transaction.ExecDecides: the text that raise_on_error adds to an error is not modelled.
- Pipeline.Pipeline.Run: hygiene over a run is stated for calls that use WATCH and MULTI through their own methods; what other calls give back is stated for each call. Script loading is not modelled.
- ConnectionPool.RunPool: forks, and releases of connections that are not out, are not part of the run; a single release of any connection is described by `Release`.
- BlockingPool.RunPool: the same; waiting for an entry is a get that finds the queue empty.
- PubSub.PubSub.HandleMessage: message handlers and the returned message are not modelled; the three dictionaries and pending sets are one map and one set keyed by kind and name.
- Reconnecting a PubSub while an unsubscription is in flight: the agreement is per connection.
- Several connections sharing one cache, and health-check reconnects of a caching connection.
- RESP3 replies other than the order of pushes and replies; the hiredis parser and serializer.
- Sockets, TLS, DNS, URLs, the authentication handshake: bytes and connections come from scripts.
- CRC16 itself: an arbitrary function.
- Text encodings, floats, the wording of error messages, and the digit limit of Python's int(): values are opaque or unbounded.
- The asyncio twins of client, cluster, lock, sentinel and pools: the same algorithms as the blocking ones.
- Command wrappers, response callbacks, module commands: thin or display only.
