# A verified model of conduwuit

conduwuit is a Matrix homeserver. This project models the parts of it where order, state and
interruption decide correctness, and proves what they keep. Every theorem is a statement about all
inputs, all runs or all reachable states of the model.

| file | what it models |
|---|---|
| `Collections.dfy` | optional values, elements and repetition, for all modules |
| `Bytes.dfy` | byte strings in key order, big-endian numbers, UTF-8 |
| `Codec.dfy`, `Serializer.dfy`, `Deserializer.dfy` | the record format of database keys, as laws and as the two state machines |
| `Cursor.dfy` | ordered iteration over a column and prefix scans |
| `StateRes.dfy` | the tie-breaking topological sort of state resolution |
| `StateDiff.dfy` | room states stored as layered differences |
| `Watchers.dfy` | waking tasks that wait for a key prefix, with every interleaving of the two locked sections of a wake |
| `Lifecycle.dfy` | shutdown, restart and reload as atomic steps over three shared flags |
| `HotReload.dfy` | loading, running and unloading the modules in a development build |
| `Supervision.dfy` | the service manager and its workers |
| `Rewriting.dfy`, `SepMigration.dfy`, `Receipts.dfy`, `Versions.dfy` | database migrations under crashes |
| `Spaces.dfy`, `SpaceOrder.dfy`, `SpaceRepeats.dfy`, `SpaceTokens.dfy`, `SpaceRoutes.dfy` | the walk that answers a space hierarchy request: what it answers, in what order, how often, and where its tokens lead |
| `MissingEvents.dfy`, `Backup.dfy`, `Paging.dfy` | three request handlers that collect, choose or page |

Code that updates things in place is a class or a method with a loop, each proved against a
specification function; the theorems are about those functions. Concurrent protocols are transition
systems: `Run(ws, actions)` is any finite sequence of enabled steps from the initial world, and the
theorems hold at every point of every run. Whether debug assertions are compiled in is a parameter
(`checks`) of the codec. A crash is a budget of durable writes after which the run stops.

Several laws one would expect do not hold of the code as it is. Each of these has the exact
condition under which it does, and an input at which it does not:

- A key reads back as written unless an optional record looks absent, raw bytes are not last, or the
  only record is empty (`Codec.RoundTrip`, `Codec.EmptyTextVanishes`).
- A reverse scan by prefix sees at most the key equal to the prefix, because it starts at the last
  key not after the prefix; it agrees with the forward scan if and only if no longer key has the
  prefix (`Cursor.ReverseScanExact`, `Cursor.ReverseScanMisses`).
- A failed call undoes its flags, except that a reload refused because the server is stopping leaves
  `reloading` set (`Lifecycle.AloneUndoes`, `Lifecycle.AtQuiescence`, `Lifecycle.RefusedReloadStays`).
- Services that stay up across a reload keep the modules they need if and only if, when modules are
  closed, the service module or one after it is not replaced (`HotReload.KeptExactly`,
  `HotReload.KeptWithoutModules`).
- A first page of a space lists no room twice if and only if, in a breadth-first search of the space,
  no room lists an open child that was found already and is not visited yet: one that waits, the room
  itself, or one listed twice (`SpaceRepeats.RepeatsExactly`, `SpaceRepeats.DiamondRepeats`). On a
  tree no page does, with or without a token (`SpaceRepeats.TreeNeverRepeats`).
- The page that the token of a first page of a space leads to does not continue it. On a tree whose
  rooms have short identifiers it does if and only if nothing was left to list: the token counts the
  next room as visited (`SpaceTokens.ContinuesExactly`, `SpaceTokens.TokenSkipsNext`), and a token
  that begins with the root is refused (`SpaceTokens.RootTokenFails`, `SpaceTokens.StarTokenFails`).
  Where no child has a short identifier, the token of every first page has one entry, and its page
  starts again with the second room (`SpaceRoutes.RootTokenRestarts`, `SpaceRoutes.RemoteRepeats`).
- A page of a space without a token that its limit has cut is complete if and only if its last room
  would have added nothing to the queue (`SpaceTokens.SilentExactly`, `SpaceTokens.StarSilent`).
- The missing-events handler does not advance past an event it sends, so it repeats the first one it
  can send (`MissingEvents.DistinctExactly`); it returns no predecessor unless that was asked for
  itself (`MissingEvents.ResponseSendable`, `MissingEvents.PredecessorsNotReturned`).
- Following the page tokens of the room directory makes progress if and only if the limit is positive
  (`Paging.StuckExactly`, `Paging.ZeroLimitStuck`).
- A state that was saved is stored if and only if it was stored before, or its hash was not known and
  the first attempt that gave it a number also stored its difference. An attempt that a crash or a
  failed load ends in between leaves a state that no later attempt stores (`StateDiff.StoredExactly`,
  `StateDiff.CutSaveIsLost`).
- The receipts migration keeps the oldest receipt of a run. The newest survives if and only if it is
  the only one (`Receipts.NewestSurvives`, `Receipts.NewerIsDeleted`).

Where code and names or comments disagree the model follows the code: a watcher's sender is
destroyed, after it has sent; the space hierarchy is walked breadth first, not depth first
(`SpaceOrder.BreadthFirst`); its `max_depth` is compared with the number of rooms visited, and no
deeper room is listed for that reason (`SpaceOrder.WithinDepth`); the directory does not cap its limit
at 100; the total that the separator migration reports is the index of the last key.

## Model

| member | source | states |
|---|---|---|
| `Bytes.BeOrder` | src/database/ser.rs:278-290 | Big-endian images of equal width compare as the numbers do |
| `Utf8.ValidHasNoSep` | src/database/ser.rs:73 | The separator byte occurs in no valid UTF-8 text |
| `Utf8.ValidExactly` | src/core/utils/string.rs:114 | A byte string counts as text if and only if it is the encoding, character by character, of numbers up to 0x10FFFF that are no surrogates, in one to four bytes |
| `Codec.FieldRoundTrip` | src/database/de.rs:278-389 | A record followed by a boundary reads back with the rest untouched |
| `Codec.FieldSound` | src/database/de.rs:278-389 | Reading a record never fails an assertion, and what it yields is the image of a value of the declared type |
| `Codec.RoundTrip` | src/database/de.rs:21-69 | Decoding an encoded tuple gives the tuple back if and only if no optional record looks absent, raw bytes come last, and the key is not one empty record |
| `Codec.EmptyTextVanishes` | src/database/de.rs:278-288 | A tuple whose optional record is an empty text does not read back |
| `Codec.RoundTripOne` | src/database/de.rs:21-32 | A value outside a tuple reads back if and only if an optional one does not look absent |
| `Codec.DecodeSound` | src/database/de.rs:21-69 | With debug assertions, whatever decodes is the encoding of the result, up to one trailing separator |
| `Codec.EncodeInjective` | src/database/ser.rs:98-108 | Two tuples of one schema that round trip never share a key |
| `Codec.ChecksOnlyPanic` | src/database/de.rs:124-133 | Debug assertions change no outcome except by failing |
| `Codec.TextNeverLosesStep` | src/database/de.rs:99-133 | For schemas of strings, optional or not, the separator assertion cannot fail on any buffer |
| `Codec.IgnoreExact` | src/database/de.rs:82-105 | Ignoring a record skips exactly it if and only if its bytes hold no separator |
| `Codec.FieldErrors` | src/database/de.rs:278-389 | Reading a record fails if and only if it is a text that is not valid or a number with fewer than eight bytes left, and not an optional record that looks absent |
| `Codec.ShortKeyFails` | src/database/de.rs:440-450 | A key with fewer records than the tuple has is answered with an error, in any build |
| `Codec.TrailingSeparator` | src/database/de.rs:57-69 | One separator after the last record does not keep a key from being read |
| `Codec.SignedImage` | src/database/ser.rs:278 | A signed number is written as the unsigned one equal to it modulo two to the 64 |
| `Codec.KeyLayout` | src/database/ser.rs:98-108 | A key of a text, a number and a text is just these with a byte 0xFF between them |
| `Codec.ImageOf258` | src/database/ser.rs:290 | A number whose eight bytes show that the most significant comes first |
| `Codec.PrefixExact` | src/database/ser.rs:62-67 | A scan prefix closed by an interfix is a prefix of a key if and only if its records are the leading records of the key |
| `Codec.InterfixNeeded` | src/database/ser.rs:62-67 | Without the interfix a scan prefix matches a key of another leading record |
| `Codec.NumericOrder` | src/database/ser.rs:290 | Keys that share leading records are ordered by the unsigned number that follows, whatever comes after it |
| `Ser.Serializer.constructor` | src/database/ser.rs:28-34 | A serializer starts with no output, no separator due and not finalized |
| `Ser.Serializer.TupleStart` | src/database/ser.rs:78-91 | Entering a tuple fails exactly when debug assertions find a separator due or the output finalized |
| `Ser.Serializer.TupleEnd` | src/database/ser.rs:83-96 | Leaving a tuple undoes the depth of entering it and stops at zero |
| `Ser.Serializer.RecordStart` | src/database/ser.rs:98-108 | Every record but the first is preceded by one separator, and none may follow finalization in a debug build |
| `Ser.Serializer.WriteItem` | src/database/ser.rs:218-298 | An item appends its image, and finalizes exactly for an interfix in a debug build |
| `Ser.Serialize` | src/database/ser.rs:28-45 | The machine writes what the encoding function describes, and fails exactly when something follows an interfix in a debug build |
| `Ser.RecordsEncode` | src/database/ser.rs:318-328 | A tuple of plain records is written as the records joined by separators |
| `Ser.InterfixEncode` | src/database/ser.rs:218-230 | Records followed by an interfix are written as a scan prefix |
| `De.Deserializer.constructor` | src/database/de.rs:21-26 | A deserializer starts at the front, before any record and outside a sequence |
| `De.Deserializer.RecordNext` | src/database/de.rs:99-105 | Consumes up to the first separator or the end, and leaves the separator |
| `De.Deserializer.RecordTrail` | src/database/de.rs:138-142 | Consumes everything |
| `De.Deserializer.RecordStart` | src/database/de.rs:124-133 | Steps over one byte before every record but the first, and fails exactly when a debug build finds it is no separator |
| `De.Deserializer.RecordIgnore` | src/database/de.rs:82-94 | Skips one record inside a tuple and everything at the top level |
| `De.Deserializer.ReadAtom` | src/database/de.rs:311-376 | Reads a string or an integer as the parsing function describes, errors included, within the buffer |
| `De.Deserializer.ReadField` | src/database/de.rs:278-389 | Reads an optional, plain or raw record as the parsing function describes |
| `De.Deserializer.NextElement` | src/database/de.rs:440-450 | Ends exactly when no bytes are left, fails exactly at a missing separator, and otherwise reads one record |
| `De.ReadNext` | src/database/de.rs:440-450 | Reading one element moves the machine one record along the parse of the whole frame, or ends it with the same error or failure |
| `De.ReadTuple` | src/database/de.rs:186-193 | Reading element by element is the recursive parse of the whole frame, with the same error or failure |
| `De.Finished` | src/database/de.rs:57-69 | A debug build accepts what is left exactly when it is nothing or one separator |
| `De.FromSlice` | src/database/de.rs:21-32 | The machine computes the decoding function on every schema and every buffer |
| `De.FromSliceOne` | src/database/de.rs:21-32 | The same for a value outside a tuple |
| `Cursor.State.constructor` | src/database/stream.rs:51-57 | A cursor starts unpositioned, at its first use |
| `Cursor.State.InitFwd` | src/database/stream.rs:61-73 | Positions at the first key not before the given one, or the first key |
| `Cursor.State.InitRev` | src/database/stream.rs:77-89 | Positions at the last key not after the given one, or the last key |
| `Cursor.State.SeekFwd` | src/database/stream.rs:93-99 | The first advance keeps an eager position, every other moves one key forward and off the end |
| `Cursor.State.SeekRev` | src/database/stream.rs:103-109 | The same backwards |
| `Cursor.CollectFwd` | src/database/stream.rs:32-43 | A forward stream, started eagerly or lazily, yields every key from its start once and in order, and then nothing in any number of further polls |
| `Cursor.CollectRev` | src/database/stream.rs:32-43 | A reverse stream yields the keys up to its start in descending order, and then nothing in any number of further polls |
| `Cursor.ScanPrefix` | src/database/map/keys_prefix.rs:24-34 | Seeking and taking while the prefix matches yields exactly the keys with the prefix, in order |
| `Cursor.ScanPrefixRev` | src/database/map/rev_keys_prefix.rs:24-34 | The reverse scan yields the key equal to the prefix, if stored, and nothing else |
| `Cursor.ReverseScanExact` | src/database/map/rev_keys_prefix.rs:24-34 | The reverse scan finds all keys with the prefix if and only if none is longer than it |
| `Cursor.ReverseScanMisses` | src/database/map/rev_keys_prefix.rs:24-34 | A column with one key that the forward scan finds and the reverse scan does not |
| `Cursor.WithPrefixMember` | src/database/map/keys_prefix.rs:24-34 | A scan result holds exactly the stored keys that begin with the prefix |
| `Cursor.ScanRows` | src/database/map/keys_prefix.rs:24-34 | Scanning encoded rows by leading records gives exactly the rows with those leading records, in order |
| `Cursor.ScanSortsByNumber` | src/database/map/keys_prefix.rs:24-34 | Rows of a sorted column that share leading records come by increasing number in the next column |
| `StateRes.EarlierTotal` | src/core/matrix/state_res/mod.rs:368-386 | Any two different events are ordered by power, time and id |
| `StateRes.EarlierTransitive` | src/core/matrix/state_res/mod.rs:368-386 | That order is transitive |
| `StateRes.LexicographicalTopologicalSort` | src/core/matrix/state_res/mod.rs:351-467 | The loop returns the reference order, and errs exactly when an event of it has no key; of two events that could both come next, the one listed first has more power, or the same power and is older, or both are equal and its id is smaller |
| `StateRes.OrderTopological` | src/core/matrix/state_res/mod.rs:438-466 | The order lists every event after all it refers to, never twice, and stops only when none is ready |
| `StateRes.OrderMaximal` | src/core/matrix/state_res/mod.rs:438-466 | No topological listing reaches an event that the order does not |
| `StateRes.OrderFirst` | src/core/matrix/state_res/mod.rs:368-386 | Among all topological listings the order is lexicographically first by power, time and id |
| `StateRes.OrderByRank` | src/core/matrix/state_res/mod.rs:368-386 | In the order, an event that could have come in the place of an earlier one has less power, or the same and is younger, or both are equal and its id is greater |
| `StateRes.OnlyOrder` | src/core/matrix/state_res/mod.rs:368-466 | Nothing else is such a listing: one that is topological, by power, time and id in this sense, and goes on while any event is ready is the order |
| `StateRes.OrderComplete` | src/core/matrix/state_res/mod.rs:438-466 | All events are listed if and only if references are well founded within the graph: no cycle and nothing missing |
| `StateRes.PopLeast` | src/core/matrix/state_res/mod.rs:433-438 | Taking from the heap gives its least event and leaves the others |
| `StateRes.Prepare` | src/core/matrix/state_res/mod.rs:406-431 | Computes the ready events and, for every node, exactly the events that refer to it |
| `StateRes.Release` | src/core/matrix/state_res/mod.rs:441-461 | Listing an event strikes it from all references and readies exactly the events that became ready |
| `StateDiff.Merge` | src/service/rooms/state_compressor/mod.rs:270-287 | The two loops compute the merged difference |
| `StateDiff.MergeComposes` | src/service/rooms/state_compressor/mod.rs:318-335 | Merging the differences of two consecutive steps is the difference of both steps |
| `StateDiff.Load` | src/service/rooms/state_compressor/mod.rs:122-193 | Loading yields the layers from the bottom up with the full state at each, and fails when the state or one below it is not stored |
| `StateDiff.LayersLoad` | src/service/rooms/state_compressor/mod.rs:159-193 | For layers that are exact differences, what loading computes is the state they make up |
| `StateDiff.LoadsExactly` | src/service/rooms/state_compressor/mod.rs:159-193 | Loading succeeds if and only if the state and all that it builds on are stored, and yields a layer for each of them from the bottom up |
| `StateDiff.ValidLoads` | src/service/rooms/state_compressor/mod.rs:159-193 | In a database as saving keeps it, loading fails exactly when the state is not stored, and needs at most four layers |
| `StateDiff.LoadsUnique` | src/service/rooms/state_compressor/mod.rs:159-193 | A stored state loads in only one way |
| `StateDiff.SaveStateFromDiff` | src/service/rooms/state_compressor/mod.rs:250-358 | The recursive method stores the layer that the layering function describes |
| `StateDiff.SaveMeans` | src/service/rooms/state_compressor/mod.rs:250-358 | However layers are merged, the new state loads as the state that was saved, from at most four layers, for any rule of when a difference is too big |
| `StateDiff.OwnLayerExactly` | src/service/rooms/state_compressor/mod.rs:262-319 | A difference gets a layer of its own if and only if there are at most three below it and the square of its size is less than twice the product of the sizes of its sibling and of the layer below |
| `StateDiff.MergedLayer` | src/service/rooms/state_compressor/mod.rs:262-335 | Otherwise it is merged with the layer below, and its own size is the sibling's from then on |
| `StateDiff.SaveKeepsValid` | src/service/rooms/state_compressor/mod.rs:250-358 | Saving leaves every stored state loading exactly as before |
| `StateDiff.SaveState` | src/service/rooms/state_compressor/mod.rs:364-429 | Afterwards the state is stored, if and only if it was stored before or its hash not known before, and then loads as the new state; all others load as before; the reported difference is the exact one to the previous state, and what is stored is its layer on top of that state, with a sibling of size two |
| `StateDiff.StoredExactly` | src/service/rooms/state/mod.rs:188-228 | After any attempts, each ended before, between or after its two writes, a state is stored if and only if it was before, or its hash was not known and the first attempt that gave it a number stored it |
| `StateDiff.CutSaveIsLost` | src/service/rooms/state/mod.rs:194-201 | An attempt that ends between its writes makes the next, undisturbed one store nothing |
| `StateDiff.GetStateDiff` | src/service/rooms/state_compressor/mod.rs:434-476 | The loop reads the parent, the added and the removed entries as the reading function describes |
| `StateDiff.StoreLayout` | src/service/rooms/state_compressor/mod.rs:478-503 | A stored difference has eight bytes for the parent, sixteen for each event, and eight more if anything is removed |
| `StateDiff.StoredAdded` | src/service/rooms/state_compressor/mod.rs:478-503 | The added events follow the parent, in order |
| `StateDiff.StoredRemoved` | src/service/rooms/state_compressor/mod.rs:478-503 | Eight zero bytes and the removed events, in order, come after them |
| `StateDiff.StoreRoundTrip` | src/service/rooms/state_compressor/mod.rs:434-503 | What is stored reads back if and only if the parent is not number 0 and no added entry has key number 0 |
| `StateDiff.Counter.NextCount` | src/service/globals/data.rs:26-41 | The counter goes up by one before it is read, so no number is zero |
| `StateDiff.KeyOfCompress` | src/service/rooms/state_compressor/mod.rs:509-521 | A compressed event gives its key number back |
| `StateDiff.NumberedReadsBack` | src/service/rooms/state_compressor/mod.rs:434-503 | With numbers from the counter, every stored difference reads back |
| `StateDiff.SavedBytesLoad` | src/service/rooms/state_compressor/mod.rs:250-503 | A state saved as bytes on top of states read from bytes loads as it was saved, from at most four layers |
| `Watchers.TriggeredExact` | src/database/watchers.rs:37-47 | The first half of a wake collects exactly the watched prefixes of the key |
| `Watchers.Watchers.constructor` | src/database/watchers.rs:12-15 | Nothing is watched at first |
| `Watchers.Watchers.Watch` | src/database/watchers.rs:18-35 | A watcher joins the channel of its prefix, or a new one if there is none |
| `Watchers.Watchers.Scan` | src/database/watchers.rs:37-47 | The scan under the read lock is the set of watched prefixes, and changes nothing |
| `Watchers.Watchers.Remove` | src/database/watchers.rs:49-56 | The removal under the write lock removes what is still there, sends to it, and skips the rest |
| `Watchers.InvariantAlways` | src/database/watchers.rs:18-57 | In every run, listed channels are alive and unsent, and every send finds its channel open |
| `Watchers.PendingExactlyWhileListed` | src/database/watchers.rs:31-35 | A waiting task is pending exactly as long as its channel is listed, is notified at most once, and never sees its sender vanish unsent |
| `Watchers.NoLostWakeup` | src/database/watchers.rs:37-57 | Once a wake for a key returns, everyone who watched a prefix of the key before it was called is awake, whatever else ran in between |
| `Watchers.NoSpuriousWakeup` | src/database/watchers.rs:49-56 | A task is awoken only by the removal step of a call whose key extends its prefix |
| `Watchers.WatchMeans` | src/database/watchers.rs:18-35 | A new subscription is pending, for the prefix it was made with |
| `Watchers.NoDeadlock` | src/database/watchers.rs:37-57 | As long as a call has not returned, some call can take its next step |
| `Watchers.AtMostOneRemoves` | src/database/watchers.rs:50 | No two calls are inside the removal at once |
| `Lifecycle.Server.Shutdown` | src/core/server.rs:96-104 | Flags and result of an undisturbed shutdown, for every state and delivery |
| `Lifecycle.Server.Restart` | src/core/server.rs:86-94 | The same for a restart |
| `Lifecycle.Server.Reload` | src/core/server.rs:67-84 | The same for a reload |
| `Lifecycle.AloneUndoes` | src/core/server.rs:67-104 | A failed call restores all flags if and only if it is not a reload that met a stopping server |
| `Lifecycle.AloneSucceeds` | src/core/server.rs:67-104 | A call succeeds if and only if the signal is delivered, the server is not stopping and no call of its kind is under way, and then sets the stopping flag and its own |
| `Lifecycle.RefusedReloadStays` | src/core/server.rs:72-78 | A reload of a stopping server fails and leaves its flag set |
| `Lifecycle.StepsMatchCall` | src/core/server.rs:67-112 | The atomic steps of one call run to the end are the call |
| `Lifecycle.FlagsOwned` | src/core/server.rs:67-112 | In every interleaving each flag is set exactly when one call, and only one, owns it |
| `Lifecycle.AtMostOneSucceeds` | src/core/server.rs:67-112 | Among all calls of all interleavings at most one returns success, and stopping stays set from then on |
| `Lifecycle.UndoOnlyOwn` | src/core/server.rs:80-103 | No step clears a flag that another call owns |
| `Lifecycle.AtQuiescence` | src/core/server.rs:67-112 | When all calls have returned: stopping if and only if one succeeded, restarting if and only if that was a restart, reloading if and only if a reload succeeded or was refused by a stopping server |
| `Lifecycle.OneSucceeds` | src/core/server.rs:67-112 | If every signal is delivered, exactly one of the calls that have all returned has succeeded, whatever the interleaving |
| `HotReload.Server.Open` | src/main/mods.rs:90-106 | Loads the missing modules in order until one fails |
| `HotReload.Server.Run` | src/main/mods.rs:41-88 | Runs once as the specification says and never finds modules or services missing |
| `HotReload.Server.StaleIndex` | src/main/mods.rs:137-147 | The index of the first replaced module, or how many are loaded |
| `HotReload.Server.Close` | src/main/mods.rs:108-130 | Unloads from the end while forced or replaced |
| `HotReload.CloseTo` | src/main/mods.rs:120-129 | A forced close unloads everything; an unforced one exactly the replaced modules at the end |
| `HotReload.Once` | src/main/main.rs:95-116 | One iteration on the server object is the specified iteration, and leaves services exactly when the next run does not start them |
| `HotReload.AsyncMain` | src/main/main.rs:92-120 | The loop on the server object computes the specified iteration for every sequence of rounds |
| `HotReload.OpenInOrder` | src/main/mods.rs:99-105 | The loaded modules stay a prefix of the list, and are the whole list when opening succeeds |
| `HotReload.IterateExactly` | src/main/mods.rs:26-154 | A round goes on, or stops, if and only if loading, starting, running, stopping and asking for replaced modules go well and a reload was, or was not, requested; services survive if and only if neither the database nor the service module was replaced |
| `HotReload.LoopValid` | src/main/main.rs:92-120 | In every history no expectation fails, and services are present exactly when the next run does not start them; a stop leaves no module and no service |
| `HotReload.KeptExactly` | src/main/mods.rs:67-88 | Services kept across a reload keep their module loaded if and only if some module from it on was not replaced when closing |
| `HotReload.KeptWithoutModules` | src/main/mods.rs:120-127 | A round after which services are kept and every module is gone |
| `HotReload.KeptWhenStable` | src/main/main.rs:92-120 | Over whole histories in which modules are not replaced between decision and close, kept services always keep their module |
| `Supervision.Manager.constructor` | src/service/manager.rs:26-33 | A manager starts with no workers |
| `Supervision.Manager.StartWorker` | src/service/manager.rs:150-168 | A worker is added exactly when the server runs |
| `Supervision.Manager.HandleResult` | src/service/manager.rs:105-148 | A good end is settled; a failure or a panic is ignored on shutdown; while the server runs, a failure is returned as an error and a panic leads to one new worker of the same service, or to an error if the server has stopped meanwhile |
| `Supervision.Always` | src/service/manager.rs:45-168 | The supervision invariant holds throughout every run |
| `Supervision.AtMostOneLive` | src/service/manager.rs:45-168 | No service ever has two live workers |
| `Supervision.StartMeans` | src/service/manager.rs:58-70 | Startup gives the next service a worker while the server runs, and fails on shutdown |
| `Supervision.JoinMeans` | src/service/manager.rs:105-148 | In every run, joining a panicked worker while the server runs leads to its restart, joining a failed one then ends the manager in error, and a worker is ignored if and only if it did not end well and the server is stopping |
| `Supervision.RestartMeans` | src/service/manager.rs:143-168 | A restart adds one worker of the same service if the server still runs, and else ends the manager in error |
| `Supervision.PanicReplaced` | src/service/manager.rs:123-148 | A worker that panicked and was joined while the server ran has at every later moment exactly one replacement of the same service, or is being replaced, or ended the manager with an error |
| `Supervision.IgnoredNotReplaced` | src/service/manager.rs:135-138 | A worker joined on shutdown is never replaced |
| `Supervision.NoDeadlock` | src/service/manager.rs:84-98 | Until the manager ends, startup, a worker or the manager can take a step |
| `Supervision.ManagerEnd` | src/service/manager.rs:84-98 | The manager ends well only after startup with all workers joined, and in error exactly when a worker was lost |
| `Supervision.EveryServiceServed` | src/service/manager.rs:58-70 | Every service that startup has come past has had a worker |
| `Supervision.SpawnsAccounted` | src/service/manager.rs:45-168 | In every run the workers are those of startup plus one for each replaced panic |
| `Rewriting.MoveKeeps` | src/service/migrations.rs:483-495 | Writing under the new key and deleting the old one changes nothing about what a full run leaves under any key |
| `Rewriting.RunKeepsFinal` | src/service/migrations.rs:479-500 | So does a run cut off after any number of writes |
| `Rewriting.NothingLost` | src/service/migrations.rs:483-495 | At every point of a run every record is there under its old key or its new one, with its value; a key that needs no rewriting keeps its value unless a record is rewritten to it |
| `Rewriting.RunCompletes` | src/service/migrations.rs:479-500 | A run that is not cut off leaves under every key what the specification says |
| `Rewriting.CrashSafe` | src/service/migrations.rs:479-500 | After any number of interrupted runs one complete run leaves under every key what an undisturbed run would have left |
| `Rewriting.Column.RewriteOne` | src/service/migrations.rs:485-495 | One key costs two writes or none, and a crash between them leaves what the interrupted run leaves |
| `Rewriting.Column.Rewrite` | src/service/migrations.rs:475-500 | The loop over the column is the specified run over the keys before the first that cannot be handled, ends well exactly when there is none and the budget suffices, and counts the rewritten keys |
| `SepMigration.SeparateLawful` | src/service/migrations.rs:485-494 | Inserting the separator is a rewriting whose results need no rewriting and can be traced back |
| `SepMigration.FixDecodes` | src/service/migrations.rs:486-493 | Every rewritten key decodes to its room and its event |
| `SepMigration.HalvesWhole` | src/service/migrations.rs:487-488 | The room and the event of a key make up the old key |
| `SepMigration.JoinedSplits` | src/service/migrations.rs:485-493 | A room without a '$' and an event that starts with one, written without a separator, are told apart, and the rewritten key is the two with a separator between them |
| `SepMigration.MigrationCrashSafe` | src/service/migrations.rs:467-507 | After any crashes a complete run leaves every record under a key with a separator: a rewritten one with its value, any other with its own or that of the record rewritten to its key, and nothing that an undisturbed run would not have left |
| `SepMigration.FixReferencedEventsMissingSep` | src/service/migrations.rs:467-507 | The migration method is that rewriting, stopped by a key that is not text or has no event, and reports the index of the last key and how many were rewritten |
| `Receipts.Column.DeleteRepeated` | src/service/migrations.rs:522-549 | Going row by row deletes exactly the repeated rows gone through, and ends at a row that cannot be handled or a deletion over the budget |
| `Receipts.Column.FixDuplicates` | src/service/migrations.rs:509-559 | The column is left as a pass leaves it; the migration ends well exactly when no row is garbled or has an identifier over 255 bytes and the budget suffices, and then leaves the first of every run of equal room and user and counts what it saw and deleted |
| `Receipts.SurvivorsAreRuns` | src/service/migrations.rs:525-547 | Comparing each row with the one before it keeps the first of every maximal run |
| `Receipts.SecondPass` | src/service/migrations.rs:522-551 | A second pass deletes nothing, and a pass deletes nothing exactly when no neighbours are equal |
| `Receipts.PassKeeps` | src/service/migrations.rs:522-551 | A pass cut off anywhere changes nothing about what a whole pass leaves |
| `Receipts.PassWhole` | src/service/migrations.rs:522-551 | A pass that is not cut off leaves what does not repeat the row before it |
| `Receipts.CrashSafe` | src/service/migrations.rs:522-551 | After any number of passes cut off anywhere, a whole pass leaves what it would have left at once |
| `Receipts.NoneForgotten` | src/service/migrations.rs:541-544 | Every room and user that had a receipt keeps one: the first of the run of equal rows |
| `Receipts.SurvivorIsOldest` | src/service/migrations.rs:514 | In a column in key order, the row that survives for a run has the lowest count of the run |
| `Receipts.RowsDiffer` | src/service/migrations.rs:514 | A column in key order has no row twice |
| `Receipts.RunsNotRepeated` | src/service/migrations.rs:541-544 | The first rows of the runs are the rows that do not repeat the one before them |
| `Receipts.DeletedExactly` | src/service/migrations.rs:522-547 | A row of a column in key order is deleted if and only if the row before it has the same room and the same user |
| `Receipts.NothingStops` | src/service/migrations.rs:509-531 | Nothing ends a pass early if and only if every key decodes and no room or user is longer than 255 bytes |
| `Receipts.NewestSurvives` | src/service/migrations.rs:541-544 | The last row of a run is among these if and only if it is the only one |
| `Receipts.NewerIsDeleted` | src/service/migrations.rs:541-544 | Of two receipts of one user in one room the newer is deleted |
| `Versions.Globals.PerformDue` | src/service/migrations.rs:86-139 | Performs the due steps in order, as specified, until cut off |
| `Versions.Globals.Migrate` | src/service/migrations.rs:74-148 | A run on the stored version and markers is the specified run |
| `Versions.HistoryGrows` | src/service/migrations.rs:74-148 | Over any history of cut-off runs the version never falls and no marker is lost; an unsupported version is left alone |
| `Versions.CompletedRun` | src/service/migrations.rs:74-148 | A completed run is at version 17 with all markers, and a run that is not cut off completes if and only if the version was between 11 and 17 |
| `Versions.RunPerforms` | src/service/migrations.rs:86-139 | A run performs the steps that the version and the markers at its start call for, in the order of the code, as far as its budget goes, and is cut off if and only if there are more |
| `Versions.PerformedExactly` | src/service/migrations.rs:86-139 | A run that is not cut off performs the steps to 12, 13 and 17 if and only if the version is below, and the step of a marker if and only if that is not set, or belongs to one of the last two fixes and the version is below 17 |
| `Versions.RunRecorded` | src/service/migrations.rs:86-139 | Wherever a run is cut off, the version is the highest reached by what it performed and the markers are the old ones and those it performed |
| `Versions.NextRunIdle` | src/service/migrations.rs:74-148 | After a completed run the next performs nothing |
| `Versions.EventuallyMigrated` | src/service/migrations.rs:74-148 | After any crashes one undisturbed run completes |
| `Spaces.VisitProgress` | src/api/client/space.rs:98-165 | Revisiting a room strictly lowers the weight of the queue, so the walk ends on cyclic spaces too |
| `Spaces.TurnKeeps` | src/api/client/space.rs:98-165 | From every state that a walk can be in, one turn answers correctly or leads to such a state, closer to the end |
| `Spaces.Visit` | src/api/client/space.rs:98-165 | The loop body is one turn of the specified walk |
| `Spaces.GetClientHierarchy` | src/api/client/space.rs:86-165 | The loop ends, where the specified walk ends; it answers only rooms that are open and reachable, within the limit; a first page starts with the root and, if it stays under the limit and lists no more different rooms than the maximal depth, has every open room that can be reached; a page under its limit leaves nothing to visit and off the page no more rooms than the token has entries; a root that is missing or closed is answered with its own error, and only then; a token is refused only with nothing left to visit and no more rooms visited than it has entries |
| `Spaces.WholeIsExhaustive` | src/api/client/space.rs:98-165 | Without a token, when nothing is left to visit, every open room on a path of open rooms was listed |
| `SpaceOrder.OneOutcome` | src/api/client/space.rs:98-165 | However long one looks, a walk has one outcome |
| `SpaceOrder.LimitTruncates` | src/api/client/space.rs:154-156 | A smaller limit only cuts the page short: its rooms are the first ones of the page under a larger limit, and one fails if and only if the other does, in the same way |
| `SpaceOrder.TurnsCommitted` | src/api/client/space.rs:105-151 | Once a room is listed, the walk cannot fail any more |
| `SpaceOrder.BreadthFirst` | src/api/client/space.rs:98-162 | A first page lists rooms level by level, only the root on level 0 and every other after a room one level up that it is a child of |
| `SpaceOrder.WithinDepth` | src/api/client/space.rs:153-162 | Every listed room has a path of at most maximal-depth edges from the root, on any page |
| `SpaceRepeats.PageQueued` | src/api/client/space.rs:98-162 | A first page is the beginning of all that was ever queued: everything, or as much as the limit allows |
| `SpaceRepeats.RepeatsExactly` | src/api/client/space.rs:118-122 | A first page repeats no room if and only if a breadth-first search, within the limits, meets no unvisited open child that it has found already |
| `SpaceRepeats.TreeNeverRepeats` | src/api/client/space.rs:118-122 | If no open room lists the root or a child twice and no two list the same child, no page repeats a room, at any point of the walk |
| `SpaceRepeats.DiamondRepeats` | src/api/client/space.rs:118-122 | On a space where two rooms share a child, the page lists that child twice |
| `SpaceTokens.TokenLength` | src/api/client/space.rs:167-188 | The token has an entry for every visited room and for the next one, when all have short identifiers |
| `SpaceTokens.IdLessExactly` | src/api/client/space.rs:96-97 | Room identifiers, which the visited rooms are kept sorted by, compare by the first character in which they differ |
| `SpaceTokens.AnswersAlways` | src/api/client/space.rs:98-165 | Whatever a walk ends with is what an answer has to be, for every request |
| `SpaceTokens.TracksTurn` | src/api/client/space.rs:118-162 | On a tree, a walk with any token takes rooms in breadth-first order, possibly leaving some out |
| `SpaceTokens.PlaceOf` | src/api/client/space.rs:98-162 | On a tree, a first page lists a room after exactly the open rooms that come before it in breadth-first order |
| `SpaceTokens.TokenSkipsNext` | src/api/client/space.rs:116-188 | On a tree whose rooms have short identifiers, the room a longer first page would list next is not on the page of the token, at any point of that walk and for any limit |
| `SpaceTokens.ContinuesExactly` | src/api/client/space.rs:116-188 | There, the first page followed by the page of its token is the whole page if and only if nothing was left to list |
| `SpaceTokens.RootTokenFails` | src/api/client/space.rs:124-151 | A token whose first entry is no child of the root is answered with an error, in one turn |
| `SpaceTokens.StarTokenFails` | src/api/client/space.rs:124-188 | A root with two children, a first page of two rooms, its token, and the error that the token gets |
| `SpaceTokens.SilentExactly` | src/api/client/space.rs:154-168 | A cut first page with an empty queue, which gets no token, is complete if and only if its last room would have queued nothing |
| `SpaceTokens.StarSilent` | src/api/client/space.rs:154-168 | A root with children, a limit of one, and a page of the root alone without a token |
| `SpaceRoutes.RouteEnds` | src/api/client/space.rs:98-165 | For every request, with any token: the rooms come in the order in which they and their unvisited children are queued, of which the token leaves out those in front of the one it names; those are listed before which as many different open ones come as the token has entries, up to the limit; and the request is refused exactly at a last room that comes after fewer and queues nothing |
| `SpaceRoutes.TokenPage` | src/api/client/space.rs:116-156 | Where no child has a short identifier, a token leads to the rooms of the whole first page that come after as many different ones as it has entries, up to the limit, and is refused only if there are none |
| `SpaceRoutes.RefusedExactly` | src/api/client/space.rs:148-151 | There, if all children are open and the maximal depth is not exceeded, a token is refused if and only if there are none |
| `SpaceRoutes.TreePage` | src/api/client/space.rs:116-156 | There, on a tree, a page with a token of k entries goes on after the first k rooms of the whole first page |
| `SpaceRoutes.RootTokenOnly` | src/api/client/space.rs:167-182 | There, the token of every first page has a single entry, for the root |
| `SpaceRoutes.RootTokenRestarts` | src/api/client/space.rs:116-188 | So the page that it leads to starts again with the second room, however long the first page was |
| `SpaceRoutes.RemoteRepeats` | src/api/client/space.rs:116-188 | A root with three children without short identifiers, its first page of two rooms, and the page of its token, which lists the second of them again |
| `MissingEvents.GetMissingEvents` | src/api/server/get_missing_events.rs:29-89 | The loop returns the first sendable event of the latest, as often as the limit allows, which is the requested one or 50 |
| `MissingEvents.ResponseSendable` | src/api/server/get_missing_events.rs:40-76 | Everything returned was asked for, is known, not already held by the other server, visible to it and convertible, and the limit is kept |
| `MissingEvents.DistinctExactly` | src/api/server/get_missing_events.rs:40-87 | The response repeats nothing if and only if the limit is at most one or nothing can be sent |
| `MissingEvents.PredecessorsNotReturned` | src/api/server/get_missing_events.rs:78-86 | A concrete chain of two events of which the response repeats the first and omits the second |
| `Backup.AddKey` | src/api/client/backup.rs:237-307 | The better of two keys is kept, the old one on a tie, and the upload fails exactly when a field that the comparison comes to look at is unusable |
| `Backup.AddKeys` | src/api/client/backup.rs:237-307 | After any uploads the stored key is the specified one, and exactly those failed that could not be compared with what was stored then |
| `Backup.BetterMeans` | src/api/client/backup.rs:245-288 | A key is better if it is verified and the other is not, or else has the lower first message index, or else the lower forwarded count; missing fields count as not verified or as the largest number |
| `Backup.ComparableMeans` | src/api/client/backup.rs:245-288 | A field is looked at only if those before it are equal, and then has to be given by the upload and not malformed in the stored key |
| `Backup.CompleteAccepted` | src/api/client/backup.rs:245-291 | Uploads with all fields never fail |
| `Backup.HeldIsFirstBest` | src/api/client/backup.rs:245-291 | The stored key is the first of the best among the uploads that did not fail |
| `Backup.OrderIrrelevant` | src/api/client/backup.rs:245-291 | When none fails, the quality of the stored key does not depend on the order of the uploads |
| `Backup.NeverWorse` | src/api/client/backup.rs:245-291 | Further uploads never make the stored key worse |
| `Paging.GetPublicRooms` | src/api/client/directory.rs:265-342 | The handler answers as specified for every token, malformed ones included |
| `Paging.TokenRoundTrip` | src/api/client/directory.rs:269-287 | A forward token of an offset parses to the offset, a backward one to the offset a page earlier, not below zero |
| `Paging.ParseFormat` | src/api/client/directory.rs:269-287 | A number reads back, with a plus sign or without, if and only if it fits into 64 bits |
| `Paging.AcceptedTokens` | src/api/client/directory.rs:269-287 | A token is accepted only if it is one of two letters and a decimal number |
| `Paging.TokensExactly` | src/api/client/directory.rs:332-339 | There is a token back from every page but the one at offset zero, a token forward exactly from full pages, and an overflow exactly when the end of the page does not fit |
| `Paging.TokensLead` | src/api/client/directory.rs:334-339 | The tokens of a page lead one page forward and one page back |
| `Paging.PagesPartition` | src/api/client/directory.rs:332-339 | Following forward tokens from the start visits every room exactly once and in order |
| `Paging.PagesCount` | src/api/client/directory.rs:336-339 | That takes one page more than the limit goes into the number of rooms, so a full last page is followed by an empty one |
| `Paging.BackAndForth` | src/api/client/directory.rs:269-339 | Following the next token and then the previous one returns to the same page |
| `Paging.StuckExactly` | src/api/client/directory.rs:336-339 | A next token leads back to its own page if and only if the limit is zero |
| `Paging.ZeroLimitStuck` | src/api/client/directory.rs:336-339 | With limit zero the first page is empty and its next token leads to it again |

## Left out

- RocksDB, tokio, serde and ruma themselves: columns are sorted sequences or maps, futures are steps of a transition system.
- The JSON, CBOR and raw-value records of the codec, integers of other widths, nested sequences, self-describing reads and write errors.
- Iterator errors and the values of a column: scans are over keys.
- `StateRes` covers the topological sort only, not separating conflicted state, authorization or the mainline sort.
- `StateDiff` leaves out the cache of loaded states, arithmetic overflow checks and the creation of short ids.
- StateDiff.SaveState: takes it that a hash already stored stands for the same state, since it does not model hash collisions; a state hash and its number are one.
- StateDiff.Load: takes a database without a cycle of parents, on which the source would not end; saving produces none.
- Watchers.NoLostWakeup: says a task is ready to run, not when the runtime runs it.
- `Lifecycle` covers one lifetime of the server: the clearing of the stopping flag when the modules run again, builds without modules, and waiting for shutdown are left out.
- HotReload.Server.Run: does not tell a missing symbol from a start or run that fails, because both end the run the same way.
- HotReload.AsyncMain: leaves out the count of replaced modules, which is only logged.
- `Supervision` leaves out aborted workers, which the source does not support, the delay before a restart, polling and stopping the manager.
- `Versions` leaves out the media check, the contents of the push-rule steps, creating a new database, forbidden-name warnings, and a sort that fails after the marker of its step is written.
- The migrations for doubled separators and for joined rooms appear only as steps of `Versions`.
- Receipts.Column.FixDuplicates: which keys do not decode is a parameter.
- SpaceRepeats.RepeatsExactly: is about first pages; for a page with a token only the tree condition is stated, which suffices.
- Spaces.GetClientHierarchy: leaves out the text form of the token, the servers to ask for a room, errors of the room service and the caps of the route.
- SpaceTokens.ContinuesExactly: is about the second page over trees whose rooms have short identifiers, with nothing left out by the maximal depth; for other spaces and later pages, `SpaceRoutes.RouteEnds` says what is listed, but not whether that continues the page before.
- SepMigration.MigrationCrashSafe: does not model that the values of this column are empty, as the source asserts, so that replacing one loses nothing.
- MissingEvents.GetMissingEvents: leaves out the access check before it and the conversion of what it returns.
- Backup.AddKey: leaves out the version check before it and the count and tag it returns.
- Paging.GetPublicRooms: takes the rooms as already filtered and sorted, and leaves out asking another server.
- Everything else the server does, such as membership, federation, media and administration, would add handlers of the kinds above or easy members.
