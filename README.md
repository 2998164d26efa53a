# Parcel-delivery day scheduler, modelled in Dafny

The system simulates one day of parcel delivery from a single hub with two
trucks. Parcels are held in a bucketed hash table and looked up with a
multi-criteria `lookup`. The special instructions and deadline of each
parcel are parsed into fields. The loader then scores each parcel by its
deadline, resolves which parcels must travel together, and builds a load
for each truck:

- deadline parcels first, then the rest by descending priority;
- each parcel is brought in as the group of every parcel bound for its
  address;
- the load is trimmed to the truck's capacity without dropping linked
  groups;
- the load is ordered along a nearest-neighbour route from the hub.

Each truck keeps its load in an insertion-sorted priority queue. A truck
is a state machine driven by an HHMM clock. It delivers the front group on
arrival, marks each parcel DELIVERED or DELIVERED LATE, and heads on. Back
at the hub, it asks the loader for a new load. Delayed parcels join the
hub once their arrival time has come.

## How the model is built

One Dafny module per source file, plus two helpers:

| module | file | models |
|---|---|---|
| `Util` | util.dfy | Python values and string built-ins the source relies on |
| `Queues` | priority_queue.dfy | `PriorityQueue` |
| `ParcelGroups` | parcel_group.dfy | `ParcelGroup` |
| `Tables` | table.dfy | `Table` |
| `Lookups` | lookup.dfy | `Table.lookup` |
| `Graphs` | graph.dfy | `Connection`, `Node`, `Graph` |
| `Parcels` | parcel.dfy | `Parcel` |
| `Times` | time.dfy | the HHMM arithmetic shared by the clock and the trucks |
| `Clocks` | clock.dfy | `Clock` of main.py |
| `Trucks` | truck.dfy | `Truck` |
| `LoadPlans` | load_plan.dfy | loader.py's rules as functions on values |
| `Loaders` | loader.dfy | `Loader` |
| `Simulators` | simulator.dfy | the decision logic of `Simulator.update` |

Objects the source updates in place are Dafny classes. Each has the
source's fields, `modifies` clauses on its methods and `reads` clauses on
its functions. The hash table keeps its fixed array of buckets. A loop in
the source is a `while` loop with invariants. Each method is proved
against a specification function: a sorted insertion, the filter of a
lookup, the trim, the nearest-neighbour route, or the arrangement of
groups along it. Lemmas state what the source promises about those
functions.

Python's values are written out:

- `float('-inf')` and `float('inf')` as priorities: an `ExtInt` type.
- distances (a float weight, `inf` for `None`, or no connection): a
  `Dist` type.
- integers: unbounded, as in Python, and never negative where they are
  times.
- an exception the source raises: an error result (`Option`, `ok: bool`,
  a `Result`).

Two identity rules follow the source:

- Parcels compare equal by id (parcel.py:133-141).
- Nodes, connections and groups compare by reference.

Four quirks of the program are modelled as written:

- **Deadline share.** The comment of `run` says the parcels are
  separated out into lists that match the number of trucks
  (loader.py:163-166). The share it computes is `n // k + n % k`
  (loader.py:170-171), which is not an even split and not the ceiling of
  `n / k`: `LoadPlans.DeadlineShareExamples` shows five parcels over three
  trucks giving a share of 3, so the first two trucks can take all five
  and leave none for the third.
- **Pause.** `pause` leaves the clock running, so `start` after `pause`
  raises (`Clocks.StartAfterPauseFails`).
- **Distance to itself.** `get_distance` of a node to itself is the
  weight of its first connection, not 0 (`Graphs.SelfDistance`).
- **Retiring a truck.** Before loading, `run` tests only
  `get_remaining_parcels()` (loader.py:173-176), the parcels AT HUB
  without a deadline (loader.py:18-19). It returns 1, and `update`
  retires the truck (main.py:219-222), while parcels with a deadline are
  still at the hub or delayed parcels have yet to arrive
  (`Simulators.RemainingEmpty`, `Simulators.DeadlineParcelLeftAtHub`).

`run` returns 1 when no parcel without a deadline is AT HUB (loader.py:175-176) and 0 after
loading the trucks (loader.py:193); the model's `Some(1)` and `Some(0)`
are those values, and `None` stands for a raise.

## Model

The definitions the methods and lemmas are proved against have no row of
their own. These include the operators `Parcel.Lt` to `Parcel.Ne` and
`ParcelGroup.Lt` to `ParcelGroup.Ge`, `ParseDeadline`,
`ParseInstructions`, `ScanArrival`, `ScanCompanions`, `TickTime`,
`Filter`, `Matches`, `Trim`, `Route`, `Nearest`, `Arrange` and
`GreedyAt`. The rows of the lemmas and methods that state their
properties cite their lines.

| member | source | states |
|---|---|---|
| Queues.InsertIndex | priority_queue.py:28-35 | the place push's scan stops at: no earlier key is strictly below the new priority, and the key found there is |
| Queues.Insert | priority_queue.py:32 | list.insert: one element more, the new one at the index, the rest shifted unchanged |
| Queues.InsertContents | priority_queue.py:30-38 | an insertion adds exactly the new element (as a multiset), nothing else |
| Queues.InsertKeepsOrder | priority_queue.py:28-38 | inserting at the scan's stopping point keeps a non-increasing key sequence non-increasing |
| Queues.InsertIndexSplits | priority_queue.py:31 | in a non-increasing queue the new group goes after every group of equal or higher priority and before every strictly lower one (ties are first come, first served) |
| Queues.RemoveFirst | priority_queue.py:43-44 | list.remove by identity: one element fewer when present, the same list when absent, no new elements |
| Queues.RemoveFirstDistinct | priority_queue.py:40-44 | in a duplicate-free queue remove takes exactly that group out and keeps every other one |
| Queues.RemoveFirstKeepsOrder | priority_queue.py:40-49 | removing a group keeps the queue sorted from largest to smallest priority |
| Queues.TotalParcelsAppend | priority_queue.py:60-66 | the parcel count of two queues put together is the sum of their counts |
| Queues.TotalParcelsRearranged | priority_queue.py:60-66 | two duplicate-free queues with the same groups hold the same number of parcels |
| Queues.PushSpec | priority_queue.py:25-38 | push's result: unchanged for a group already queued; otherwise one element more, the same multiset plus the group, every old group kept |
| Queues.PushKeepsOrder | priority_queue.py:28-38 | push keeps a non-increasing queue non-increasing |
| Queues.PushAll | priority_queue.py:19-38 | pushing a load adds no group from elsewhere |
| Queues.PushAllKeepsOrder | priority_queue.py:28-38 | pushing a whole load keeps the queue non-increasing |
| Queues.PushAllMembers | priority_queue.py:25-38 | after pushing a load the queue holds exactly the old groups and the load's |
| Queues.PriorityQueue.constructor | priority_queue.py:15-17 | a new queue is empty |
| Queues.PriorityQueue.Push | priority_queue.py:19-38 | the loop's result is PushSpec: no change for a queued group, otherwise insertion at InsertIndex; order and distinctness kept |
| Queues.PriorityQueue.Remove | priority_queue.py:40-44 | the queue becomes RemoveFirst of the old one and no longer holds the group; a non-increasing queue stays non-increasing |
| Queues.PriorityQueue.Pop | priority_queue.py:46-53 | empty: null and no change; otherwise element 0 is returned and removed |
| Queues.PriorityQueue.Peek | priority_queue.py:55-58 | element 0, or null exactly when empty; nothing changes |
| Queues.PriorityQueue.Count | priority_queue.py:60-66 | the number of parcels over all groups, not the number of groups |
| Queues.PriorityQueue.Contains | priority_queue.py:68-74 | true exactly when some group holds a parcel with the item's id |
| ParcelGroups.FoldMaxIsMax | parcel_group.py:16-30 | the running maximum is an upper bound of the start value and every priority, and equals one of them |
| ParcelGroups.ParcelGroup.constructor | parcel_group.py:14-18 | a new group is empty, with priority -inf, no destination and not linked |
| ParcelGroups.ParcelGroup.AddParcel | parcel_group.py:20-36 | a present id changes nothing; otherwise the parcel is appended, the maximum updated, the first parcel fixes the destination, a parcel bound for another node (by identity) raises after the append, and the linked flag is only ever set |
| ParcelGroups.ParcelGroup.SetPriority | parcel_group.py:52-53 | only max_priority changes, to the value given |
| ParcelGroups.GroupComparisons | parcel_group.py:55-73 | the four operators compare max_priority alone: > is the converse of <, <= is < or equal, and any two groups are ordered |
| ParcelGroups.AddParcelMax | parcel_group.py:29-30 | appending a parcel folds its priority into the maximum |
| ParcelGroups.AddParcelLinked | parcel_group.py:35-36 | a group is linked exactly when one of its parcels is |
| ParcelGroups.AddParcelDistinct | parcel_group.py:27-28 | adding only new ids keeps the ids distinct |
| ParcelGroups.AddParcelKeepsBuilt | parcel_group.py:27-36 | one more successful add keeps the fields in step with the parcels: maximum, linked flag, one shared destination, distinct ids |
| Tables.Find | table.py:43-48 | the bucket scan's result: None exactly when no entry has the key, otherwise a value stored under it |
| Tables.FindFirst | table.py:45-48 | the scan returns the value of the first entry with the key |
| Tables.Put | table.py:24-35 | insert's change to one bucket adds no entry other than (key, item) |
| Tables.PutFind | table.py:20-48 | after insert, get finds the new item under its key and every other key's old value |
| Tables.PutUnique | table.py:24-35 | insert never makes a key appear twice in its bucket |
| Tables.PutAt | table.py:27-33 | an existing key is overwritten in place, at its first position |
| Tables.PutAbsent | table.py:34-35 | a new key is appended to the end of its bucket |
| Tables.Delete | table.py:132-142 | remove's change to one bucket adds no entry |
| Tables.DeleteFind | table.py:127-142 | after remove, get of that key is None and every other key's value is unchanged |
| Tables.DeleteUnique | table.py:132-142 | remove keeps the keys of a bucket distinct |
| Tables.DeleteAt | table.py:135-142 | remove deletes exactly the first entry with the key |
| Tables.DeleteAbsent | table.py:141-142 | removing an absent key changes nothing |
| Tables.Values | table.py:150-152 | the values of the entries, one for one, in order |
| Tables.ValuesAppend | table.py:149-152 | the values of two runs of entries put together are the two value lists put together |
| Tables.FlattenAppend | table.py:149-152 | walking the buckets in two parts lists the first part's entries, then the second's |
| Tables.FlattenMember | table.py:149-152 | an entry is listed exactly when some bucket holds it |
| Tables.FlattenUnique | table.py:144-154 | with every key in bucket key % size and unique per bucket, no key is listed twice |
| Tables.AppendValues | table.py:150-152 | the inner loop of items appends the bucket's values in order |
| Tables.Table.constructor | table.py:5-18 | table_size empty buckets and an empty association |
| Tables.Table.Insert | table.py:20-35 | the association maps key to item; only bucket key % size changes, by Put |
| Tables.Table.Get | table.py:37-48 | the value stored under the key, None when absent |
| Tables.Table.Remove | table.py:127-142 | the key leaves the association and nothing else does; only its bucket changes, by Delete |
| Tables.Table.Items | table.py:144-154 | every stored value, bucket by bucket, in insertion order within each bucket |
| Tables.Table.EntriesAreContents | table.py:144-154 | each stored key is listed exactly once, with its current value |
| Lookups.IdWordsMatchAll | table.py:84-87 | a comma-separated id filter keeps an item exactly when every word reads as the item's id |
| Lookups.IdWordsMatchRaises | table.py:86-87 | int(word) raises exactly at a non-number reached while every earlier word still matched (the `and` short-circuits) |
| Lookups.IdWordsFalse | table.py:87 | once an item has failed, the remaining words are not read |
| Lookups.Snapshot | table.py:73-75 | every stored item paired with the attributes the checks read, in order |
| Lookups.Verdicts | table.py:76-119 | one verdict per item |
| Lookups.VerdictAt | table.py:76-119 | verdict k is the loop body's verdict on item k |
| Lookups.SelectAppend | table.py:73-123 | selecting from two runs of items keeps the first run's items, then the second's, and raises if either does |
| Lookups.SelectRaises | table.py:73-125 | once a check raises, the whole lookup raises |
| Lookups.SelectStep | table.py:122-123 | one more item is appended exactly when its verdict keeps it |
| Lookups.SelectAll | table.py:60-125 | when every item passes, all are returned, in order |
| Lookups.FilterNoCriteria | table.py:60-125 | with no criteria, lookup returns every item in items() order |
| Lookups.SelectMembers | table.py:73-125 | the result holds exactly the items kept, and raises exactly when some check raises |
| Lookups.FilterMembers | table.py:60-125 | lookup returns exactly the stored parcels that meet every criterion given, or raises exactly when some stored parcel's id check does |
| Lookups.Include | table.py:76-119 | the loop body's verdict on item k is Verdicts' entry k |
| Lookups.IncludeView | table.py:76-119 | the checks in sequence compute Matches: every criterion given holds (id, address, city, state, zip, mass, node by identity, status words, deadline in its three modes) |
| Lookups.IdMatches | table.py:81-89 | the id check: equality for an int, every word for a string, anything passes for another type |
| Lookups.StatusMatches | table.py:103-110 | every comma-separated word occurs in the status and every '-word' does not |
| Lookups.Lookup | table.py:50-125 | the result is Filter of the table's items(): the kept parcels in items() order, or None where int() raises |
| Lookups.SameSnapshot | table.py:73-75 | rows read item by item from the table are the snapshot |
| Lookups.LookupBucket | table.py:74-123 | the inner loop over one bucket extends the result by exactly that bucket's kept items |
| Graphs.Connection.constructor | graph.py:44-47 | the endpoints and the weight as given |
| Graphs.WithConnection | graph.py:21-23 | the list after add_connection holds the connection, grows by one only when it was absent, and keeps the old list as its prefix |
| Graphs.WithConnectionIdempotent | graph.py:21-23 | adding the same Connection object twice is adding it once |
| Graphs.FirstWeight | graph.py:28-30 | the scan never answers infinity |
| Graphs.FirstWeightFinds | graph.py:28-30 | None exactly when no connection has the node as an endpoint; otherwise the weight of the first one that does |
| Graphs.FirstWeightOfOnly | graph.py:28-30 | when a single connection touches the node, its weight is the answer |
| Graphs.Node.constructor | graph.py:11-17 | id, address and zip as given; no connections |
| Graphs.Node.AddConnection | graph.py:21-23 | the connection list becomes WithConnection of the old one |
| Graphs.Node.Distance | graph.py:25-30 | infinity exactly for no node; otherwise the first touching weight, None when there is none |
| Graphs.DistanceSymmetric | graph.py:25-30 | two distinct nodes sharing one Connection, added to both, report the same distance either way |
| Graphs.SelfDistance | graph.py:28-30 | a node asked for its distance to itself answers with its first connection's weight, not 0 |
| Graphs.FirstAtAddress | graph.py:95-99 | null exactly when no node has that address and zip; otherwise the first node that has both |
| Graphs.AllConnectionsMembers | graph.py:107-113 | list_connections holds exactly the connections some node lists |
| Graphs.Graph.constructor | graph.py:66-70 | an empty node table |
| Graphs.Graph.AddNode | graph.py:72-74 | the node table maps node.id to the node, everything else as before |
| Graphs.Graph.RemoveNode | graph.py:76-84 | the id leaves the node table, nothing else does |
| Graphs.Graph.GetNode | graph.py:87-91 | the node stored under the id, null exactly when none is |
| Graphs.Graph.GetNodeByAddress | graph.py:95-99 | the first node in items() order with both address and zip, else null |
| Graphs.Graph.ListConnections | graph.py:107-113 | every node's connection list, concatenated in node order |
| Times.LastTwoDigits | main.py:95 | str(t)[-2:] is the last digit alone below 10, the tens and units digits otherwise |
| Times.LastTwoFacts | main.py:95 | int(str(t)[-2:]) is t % 100, and the two characters spell '60' exactly when t % 100 is 60 |
| Times.EndsIn60 | main.py:95 | the string test str(t)[-2:] == '60' |
| Times.LastTwoValue | truck.py:82 | int(str(t)[-2:]) is a number below 100 |
| Times.TickOneMinute | main.py:91-96 | a one-minute tick of a valid HHMM time gives a valid HHMM time exactly one minute later |
| Times.TickExamples | main.py:91-96 | 859 ticks to 900 and 1159 to 1200; with interval 10, 855 becomes 865 |
| Times.ArrivalClockShortTrip | truck.py:79-83 | while the minute field stays below 100 the +40 correction gives the exact arrival time |
| Times.ArrivalClockLongTrip | truck.py:79-83 | a trip that carries the minute field past 99 loses an hour: 850 plus 55 minutes gives 905 |
| Clocks.StartStep | main.py:69-77 | start succeeds exactly when not running and then runs unpaused, at start_time unless it was paused; a raise changes nothing |
| Clocks.StopStep | main.py:80-85 | stop succeeds exactly when running and clears running and paused; a raise changes nothing |
| Clocks.PauseStep | main.py:99-103 | pause succeeds exactly when running and sets only paused, leaving running set; a raise changes nothing |
| Clocks.TickStep | main.py:89-96 | tick succeeds exactly when running and not paused, and then sets the time to TickTime; a raise leaves the time as it was |
| Clocks.StepsKeepReachable | main.py:58-103 | every transition, successful or not, keeps the clock among the states a new clock can reach |
| Clocks.StartAfterPauseFails | main.py:69-103 | after a successful pause, start raises 'Clock is already running!' and changes nothing |
| Clocks.PauseStopStart | main.py:69-103 | a paused clock does not tick, and stop then start runs it again from start_time |
| Clocks.TicksCountMinutes | main.py:89-96 | n one-minute ticks from a valid HHMM time advance it by exactly n minutes |
| Clocks.Ticks | main.py:89-96 | n ticks of a running clock leave it running, unpaused, with a time |
| Clocks.Clock.constructor | main.py:58-64 | start_time and interval as given; no time, not running, not paused |
| Clocks.Clock.Start | main.py:69-77 | the new state and outcome are StartStep's |
| Clocks.Clock.Stop | main.py:80-85 | the new state and outcome are StopStep's |
| Clocks.Clock.Tick | main.py:89-96 | the new state and outcome are TickStep's |
| Clocks.Clock.Pause | main.py:99-103 | the new state and outcome are PauseStep's |
| Trucks.Ceiling | truck.py:79-80 | math.ceil: the least integer not below the number |
| Trucks.TravelMinutes | truck.py:79-80 | the minutes of a leg rounded up: the fewest whole minutes at 0.4 miles a minute that cover it |
| Trucks.ArrivalTime | truck.py:71-84 | the departure time when the truck stays put; otherwise departure plus the rounded-up minutes, plus 40 exactly when the minute field then reads 60 or more |
| Trucks.ArrivalTimeCountsMinutes | truck.py:71-84 | leaving at a valid HHMM time on a leg that ends within the hour field gives a valid HHMM time that many minutes later |
| Trucks.DeliveredStatus | truck.py:52-59 | DELIVERED LATE exactly when the parcel has a deadline and the time is past it; DELIVERED exactly otherwise |
| Trucks.EnRouteStatus | truck.py:43 | 'EN ROUTE - TRUCK ' followed by the truck id, which reads back as that id |
| Trucks.EnRouteStatusInjective | truck.py:43 | different trucks give their parcels different statuses |
| Trucks.NextNode | truck.py:61-69 | the front group's destination, the hub when the cargo is empty |
| Trucks.AfterDelivery | truck.py:128-131 | after a delivery: the hub when no parcels are left, else the new front group's destination |
| Trucks.NonEmptyCargo | truck.py:124 | a parcel count above 0 means a group in the cargo |
| Trucks.MarkEnRoute | truck.py:42-43 | every parcel of the group gets the status |
| Trucks.MarkDelivered | truck.py:52-59 | every parcel of the popped group gets DeliveredStatus for its deadline and the time |
| Trucks.Truck.constructor | truck.py:9-30 | the id, capacity and hub as given; an empty cargo, no miles, no times, no nodes, not finished |
| Trucks.Truck.AddParcelGroup | truck.py:35-43 | the cargo becomes PushSpec of the old cargo and the group, and each of the group's parcels is EN ROUTE on this truck |
| Trucks.Truck.DeliverParcels | truck.py:45-59 | the front group is popped and each of its parcels marked DELIVERED or DELIVERED LATE |
| Trucks.Truck.GetNextNode | truck.py:61-69 | the result is NextNode of the cargo |
| Trucks.Truck.CalcArrivalTime | truck.py:71-84 | never before the current time, and the current time when the truck stays put |
| Trucks.Truck.LoadCount | truck.py:86-88 | the number of parcels in the cargo |
| Trucks.Truck.Start | truck.py:102-108 | the current time is the timestamp, the truck stands at the hub, heads for NextNode, and is timed by ArrivalTime; nothing else changes |
| Trucks.Truck.FinishDay | truck.py:149-151 | only finished changes, to true |
| Trucks.Truck.Update | truck.py:110-147 | before arrival only the time moves and the reply is 0, the front group's statuses kept; on arrival the leg's mileage is added unless the day is finished and the truck moves on; with cargo the front group is delivered, the truck heads for AfterDelivery and the reply is None; with none the reply is 1 at the hub, 0 elsewhere, arrival_time and the statuses stay |
| Trucks.Truck.Arrive | truck.py:119-122 | the mileage grows by the leg unless finished; prev becomes the old curr and curr the old next |
| Trucks.Truck.DeliverAndSetOff | truck.py:124-133 | the front group is delivered and popped, the next stop is AfterDelivery and the arrival time is recomputed |
| Parcels.TwoDigits | parcel.py:35-36 | the minute field of a deadline: exactly two digits |
| Parcels.DeadlinePmTest | parcel.py:30-33 | 'H:MM PM' contains 'PM' and 'H:MM AM' does not |
| Parcels.StripMeridiem | parcel.py:35-36 | removing ' AM' and ' PM' takes off just the suffix |
| Parcels.StripColon | parcel.py:35-36 | removing ':' from 'H:MM' leaves H and MM side by side |
| Parcels.DeadlineStripped | parcel.py:35-36 | the three replaces leave the digits of H followed by MM |
| Parcels.ClockDigitsValue | parcel.py:35-36 | those digits read as H * 100 + MM |
| Parcels.ParseFormattedDeadline | parcel.py:26-36 | 'H:MM AM' gives H * 100 + MM and 'H:MM PM' that plus 1200 |
| Parcels.DeadlineEndOfDay | parcel.py:27-28 | 'EOD' gives no deadline |
| Parcels.DeadlineMorning | parcel.py:30-36 | '10:30 AM' gives 1030 |
| Parcels.DeadlineAfternoon | parcel.py:30-36 | '5:00 PM' gives 1700 |
| Parcels.DeadlineNoon | parcel.py:30-36 | '12:00 PM' gives 2400, as the offset is added to 12 too |
| Parcels.ScanArrivalOk | parcel.py:86-93 | the DELAYED loop raises exactly when a word holding ':' is not a number once its colons are gone |
| Parcels.ScanArrivalNoColon | parcel.py:86-87 | with no word holding ':' the arrival time stays as it was |
| Parcels.ScanArrivalLast | parcel.py:86-93 | when the loop succeeds, the arrival time comes from the last word holding ':' |
| Parcels.AfterWith | parcel.py:104-110 | the words after the first word holding 'WITH' are no more than all the words |
| Parcels.ScanCompanionsOk | parcel.py:105-107 | reading companions raises exactly when some word is not a number once its commas are gone |
| Parcels.ScanCompanionsPrefix | parcel.py:105-107 | the loop only appends to the companions already there |
| Parcels.ScanCompanionsAll | parcel.py:105-107 | read as companions, every word is appended in order, as its number |
| Parcels.ScanCompanionsAfterWith | parcel.py:104-110 | the companions read are exactly those of the words after the first word holding 'WITH' |
| Parcels.UpperIdempotent | parcel.py:78 | upper-casing twice is upper-casing once |
| Parcels.InstructionsCaseInsensitive | parcel.py:78 | parsing a text and its upper-cased form give the same result |
| Parcels.InstructionsFirstKeywordOnly | parcel.py:82-110 | only the branch of the first keyword found acts, and it changes only its own attributes |
| Parcels.KeywordOrder | parcel.py:82-99 | the keywords are tried in the order DELAYED, TRUCK, WRONG ADDRESS, DELIVERED WITH |
| Parcels.DeliveredWithCompanions | parcel.py:99-110 | DELIVERED WITH sets linked and companion_parcels and appends, in order, every word after the first 'WITH' word as a number, raising exactly when one is not |
| Parcels.DelayedArrival | parcel.py:82-93 | DELAYED sets delayed, and on success the arrival time is the last ':' word without its colons, plus 1200 when 'PM' occurs anywhere |
| Parcels.Parcel.constructor | parcel.py:13-58 | the attributes as given, the deadline parsed from its text, priority -inf, no node, no instruction attributes set and no companions |
| Parcels.Parcel.SetStatus | parcel.py:60-61 | only the status changes, to the one given |
| Parcels.Parcel.SetNode | parcel.py:63-65 | the delivery node is the graph's first node at the parcel's address and zip |
| Parcels.Parcel.SetPriority | parcel.py:67-68 | only the priority changes |
| Parcels.Parcel.ParseSpecialInstructions | parcel.py:70-110 | the instruction attributes end as ParseInstructions says, and status, priority and node are untouched |
| Parcels.Parcel.ReadDelayed | parcel.py:82-93 | the attributes end as ApplyDelayed says |
| Parcels.Parcel.ReadTruck | parcel.py:94-96 | the attributes end as ApplyTruck says: the last word as the required truck, raising without one |
| Parcels.Parcel.ReadDeliveredWith | parcel.py:99-110 | the attributes end as ApplyDeliveredWith says |
| Parcels.Parcel.ReadArrival | parcel.py:86-93 | the loop leaves the arrival time ScanArrival gives and no other attribute changed |
| Parcels.Parcel.ReadCompanions | parcel.py:103-110 | the loop leaves the companions ScanCompanions gives and no other attribute changed |
| Parcels.ParcelComparisons | parcel.py:113-141 | <, >, <=, >= compare priorities and order any two parcels; == and != are each other's negation (by id) |
| Util.MaxExt | parcel_group.py:29-30 | the larger of the two under Python's ordering of ints and infinities, and one of them |
| Util.LtStrictTotalOrder | parcel_group.py:55-73 | `<` on ints and the two infinities is irreflexive, transitive and total |
| Util.DigitChar | table.py:87 | the digit character for a number below ten, whose value is that number |
| Util.DigitValue | table.py:87 | a digit character stands for a number below ten |
| Util.OccursShift | parcel.py:82 | an occurrence of a substring past the first position is an occurrence in the tail |
| Util.HasSubstringAt | parcel.py:82 | Python's `in` on strings holds exactly when the substring occurs at some position |
| Util.HasSubstringOfPiece | parcel.py:82 | a string built around a piece contains it |
| Util.Upper | parcel.py:78 | str.upper(): same length, each character upper-cased in place |
| Util.SplitOn | table.py:85 | str.split(sep): at least one piece, no piece holding the separator, and the pieces joined by it give back the string |
| Util.WordLen | parcel.py:85 | the length of the leading run of non-whitespace characters |
| Util.RemoveSpacesAppend | parcel.py:85 | dropping whitespace distributes over concatenation |
| Util.RemoveSpacesOfWord | parcel.py:85 | a word without whitespace is left as it is |
| Util.Words | parcel.py:85 | str.split(): non-empty words without whitespace whose concatenation is the string with its whitespace dropped |
| Util.ReplaceCharByNothing | parcel.py:107 | replacing one character by nothing deletes every occurrence of it |
| Util.ReplaceSkipPrefix | parcel.py:35-36 | a prefix without the pattern's first character passes through the replacement untouched |
| Util.ReplaceShort | parcel.py:35-36 | a string shorter than the pattern is left as it is |
| Util.WithoutAppend | parcel.py:107 | deleting a character distributes over concatenation |
| Util.WithoutAbsent | parcel.py:107 | deleting a character the string lacks leaves it as it is |
| Util.NoSubstringWithoutFirst | parcel.py:82 | a string lacking the first character of a piece does not contain the piece |
| Util.NatToString | parcel.py:144 | str() of a natural number: a non-empty string of digits |
| Util.StripLeft | parcel.py:17 | leading whitespace is dropped, never lengthening the string |
| Util.StripRight | parcel.py:17 | trailing whitespace is dropped, never lengthening the string |
| Util.DigitsValueAppendTwo | parcel.py:35-36 | appending two digits multiplies the value by 100 and adds theirs |
| Util.DigitsValueOfNat | parcel.py:144 | the digits of a natural number have that number as their value |
| Util.NoSpaceInDigits | parcel.py:17 | stripping a string of digits leaves it as it is |
| Util.ParseIntOfIntToString | table.py:85-87 | int(str(i)) == i for every integer |
| LoadPlans.CeilDiv | loader.py:26 | the quotient rounded up: the least integer c with a <= c * b |
| LoadPlans.DeadlinePriority | loader.py:22-27 | 0 without a deadline; with one, the n for which the deadline falls in the hour (4 - n) * 60 < deadline - 800 <= (5 - n) * 60 |
| LoadPlans.DeadlinePriorityMonotone | loader.py:22-27 | an earlier deadline never scores lower than a later one |
| LoadPlans.DeadlinePriorityExamples | loader.py:22-27 | 8:00 scores 5, 9:00 scores 3, 10:30 scores 1, 17:00 scores -10, no deadline scores 0 |
| LoadPlans.LateDeadlineBelowEndOfDay | loader.py:22-27 | a deadline scores below a parcel without one exactly when it is after 11:00 |
| LoadPlans.LinkedOfMembers | loader.py:41-49 | the linked parcels collected are exactly the parcels of the table whose linked flag is set |
| LoadPlans.Priorities | loader.py:115 | the priority key of each parcel, position by position |
| LoadPlans.PrioritiesInsert | loader.py:115 | inserting a parcel inserts its key at the same position of the keys |
| LoadPlans.InsertByPriority | loader.py:115 | one insertion step of the sort keeps the keys non-increasing and adds exactly the one parcel to the multiset |
| LoadPlans.SortDescending | loader.py:115 | list.sort(reverse=True): a permutation of the parcels whose priorities are non-increasing |
| LoadPlans.SortDescendingStable | loader.py:115 | list.sort is stable: the parcels of any one priority keep their relative order |
| LoadPlans.LinkedGroups | loader.py:146-150 | the groups the trim can never remove: only groups of the load, the linked ones |
| LoadPlans.LinkedGroupsMembers | loader.py:146-150 | the linked groups are exactly the groups of the load that are linked |
| LoadPlans.LinkedGroupsAppend | loader.py:146-150 | the linked groups of a concatenation are those of each part, in order |
| LoadPlans.LinkedGroupsTotal | loader.py:89-97 | the linked groups never hold more parcels than the whole load |
| LoadPlans.TrimmedAt | loader.py:142-150 | after k passes the load is the linked groups among the first k followed by the untouched rest |
| LoadPlans.TrimmedAtFloor | loader.py:142-150 | however far the trim has got, it still holds at least the parcels of the linked groups |
| LoadPlans.RemoveFirstAt | loader.py:148 | list.remove of an element first found at i deletes exactly position i |
| LoadPlans.TrimStep | loader.py:146-150 | one pass: the group at offset is the next group of the load; a linked one is skipped with offset + 1, an unlinked one removed with offset unchanged |
| LoadPlans.TrimFromNext | loader.py:146 | while the load is over capacity the loop takes another pass |
| LoadPlans.TrimFromOutcome | loader.py:142-152 | from any pass on, the trim raises exactly when the linked groups alone exceed the capacity, and otherwise ends at some later pass |
| LoadPlans.TrimmedAtMembers | loader.py:147-150 | every linked group of the load survives every pass |
| LoadPlans.TrimOutcome | loader.py:142-152 | the trim raises exactly when the linked groups exceed the capacity; otherwise the load fits, keeps every linked group and holds only groups it had |
| LoadPlans.TrimFits | loader.py:146 | when the trim ends normally the load is within capacity |
| LoadPlans.TrimFitting | loader.py:146 | a load already within capacity is returned untouched |
| LoadPlans.Dests | loader.py:63 | the destination of each group, position by position |
| LoadPlans.NearestFirstMinimum | loader.py:67-70 | the inner loop picks None exactly on an empty list; otherwise a listed node no other listed node is strictly closer than, and the first such |
| LoadPlans.SelfDistanceNull | graph.py:26-27 | the distance to None is infinite |
| LoadPlans.ConnectedStep | loader.py:66-73 | the node chosen is listed and removing it leaves a list the next step can route from |
| LoadPlans.RouteStep | loader.py:66-73 | the route is the nearest node followed by the route from it over the rest |
| LoadPlans.RouteVisitsAll | loader.py:66-73 | over distinct destinations the route visits each exactly once |
| LoadPlans.IndexOf | loader.py:76-80 | the first position holding the element |
| LoadPlans.BoundForAbsent | loader.py:77-78 | no group is collected for a node no group is bound for |
| LoadPlans.BoundForOne | loader.py:77-78 | with distinct destinations exactly the one group bound for a stop is collected |
| LoadPlans.ArrangeDistinct | loader.py:75-81 | the new load holds, stop by stop, the group bound for that stop |
| LoadPlans.BoundForWithin | loader.py:77-80 | the groups collected for a stop are groups of the load |
| LoadPlans.ArrangeWithin | loader.py:75-81 | the new load holds only groups of the old one |
| LoadPlans.ArrangePermutes | loader.py:75-81 | when the route visits each destination once, the new load is the old one reordered: same groups, each once |
| LoadPlans.DistinctDests | loader.py:75-81 | groups with distinct destinations are distinct groups |
| LoadPlans.ParcelsOfWithin | loader.py:75-81 | a sub-load holds no parcels the load does not |
| LoadPlans.ReorderPriority | loader.py:79 | the new priority is len(load) + max_priority squared - i, infinite exactly when the old one is |
| LoadPlans.ReorderPriorityNotRouteOrder | loader.py:79 | the squared bonus can rank a later stop above an earlier one |
| LoadPlans.ReorderPriorityEqualKeys | loader.py:79 | among groups of equal old priority, route order is kept |
| LoadPlans.DeadlineShare | loader.py:170-171 | the share, times the number of trucks, covers all deadline parcels |
| LoadPlans.DeadlineShareExamples | loader.py:170-171 | five parcels over three trucks give a share of 3, over two trucks 3, six over one truck 6 |
| LoadPlans.DeadlineShareTwoTrucks | loader.py:170-171 | for two trucks the share is exactly the ceiling of half |
| LoadPlans.TakeShare | loader.py:182-187 | a prefix of the deadline parcels of at most the share; all of them whenever fewer are taken |
| LoadPlans.TakeOutcome | loader.py:119-128 | the candidate test as the source runs it (group added, then the linked expansion only when a linked candidate's group joined) is TakeAt |
| LoadPlans.GreedyAppend | loader.py:117-140 | the deadline loop followed by the remaining loop is one greedy pass over the two lists put together |
| LoadPlans.GreedyExtends | loader.py:117-140 | the candidate loops only ever append groups: the load so far stays a prefix |
| LoadPlans.GreedyOrigin | loader.py:117-140 | every group the greedy pass adds is bound for a candidate's node or a linked parcel's node |
| LoadPlans.ExpandHolds | loader.py:124-128 | after the linked expansion the load holds every linked parcel of the table |
| LoadPlans.GreedyPlaced | loader.py:118-140 | an offered table parcel is held at the end unless the load was already full when it was offered |
| LoadPlans.CountExtends | loader.py:89-97 | get_load_count never falls as groups join |
| LoadPlans.GreedyPlacedAll | loader.py:117-140 | after the greedy pass every offered table parcel is held unless the load has reached the capacity |
| LoadPlans.TrimDistinct | loader.py:142-152 | the trim of a load with distinct destinations keeps them distinct |
| Loaders.FilterWithin | loader.py:34 | a lookup finds only parcels of the table |
| Loaders.FilterWithoutId | loader.py:19 | a lookup that names no id never raises, and finds only parcels of the table |
| Loaders.FilterNodeOnly | loader.py:33-34 | lookup(delivery_node=node) finds only parcels bound for that node |
| Loaders.FilterNodeFinds | loader.py:33-34 | lookup(delivery_node=node) finds every parcel of the table bound for that node |
| Loaders.HasIdSnoc | parcel_group.py:27-28 | appending a parcel unless one with its id is there keeps every id present and adds its own |
| Loaders.HoldsSnoc | loader.py:99-108 | after a group is appended, the load holds an id exactly when the old load or the new group does |
| Loaders.LoadConnected | loader.py:63-73 | the destinations of complete groups of routable parcels can all be reached from the hub and from one another |
| Loaders.TrimmedLoad | loader.py:142-152 | a trimmed load holds only groups and parcels it was built from, fits the truck and can be routed from the hub |
| Loaders.SoundSnoc | loader.py:120-122 | the group of a parcel no group holds goes to a node no group of the load goes to, so no node is served twice |
| Loaders.HoldsExtend | loader.py:118-140 | a load that grows at its end keeps every parcel it held |
| Loaders.LinkedStep | loader.py:126-128 | appending a linked parcel's group keeps what was held, holds the parcel and keeps the load sound |
| Loaders.HoldsAt | loader.py:99-108 | check_duplicates on a load of complete groups agrees with HeldAt on its destinations |
| Loaders.TotalAt | loader.py:89-97 | get_load_count on a load of complete groups agrees with CountAt on its destinations |
| Loaders.FillPlan | loader.py:117-140 | the deadline loop then the remaining loop, from an empty load, leave the load Filled |
| Loaders.PlacedByPlan | loader.py:117-140 | a sound load that is the greedy pass over table candidates holds each of them unless it has reached the capacity |
| Loaders.LinkedHeld | loader.py:124-128 | after the linked expansion a sound load holds every linked parcel of the table |
| Loaders.RouteOver | loader.py:62-73 | over distinct destinations the route visits each once, as many stops as groups, and the groups are distinct |
| Loaders.RouteAdvance | loader.py:66-73 | one pass of the route loop: route so far plus the route over the rest is still the whole route, over a shorter connected list |
| Loaders.NextStop | loader.py:67-73 | the nearest listed node is chosen, and the route loop's invariant holds after it is appended and removed |
| Loaders.RouteFrom | loader.py:63-73 | the route loop builds exactly the nearest-neighbour route from the start over the destinations |
| Loaders.Loader.constructor | loader.py:13-15 | the loader keeps the parcel table and the graph it is given |
| Loaders.Loader.GetRemainingParcels | loader.py:18-19 | the parcels at the hub without a deadline, as the lookup finds them; all parcels of the table |
| Loaders.Loader.DeadlineParcels | loader.py:169 | the parcels at the hub with a deadline, as the lookup finds them; all parcels of the table |
| Loaders.Loader.SetParcelPriority | loader.py:22-27 | the parcel's priority becomes the deadline score, and nothing else of it changes |
| Loaders.Loader.ConfirmLinks | loader.py:51-60 | the parcel is linked exactly when it already was, names companions, or some parcel of the table names it |
| Loaders.Loader.Load | loader.py:155-160 | every parcel of the table gets its deadline score and its linked flag |
| Loaders.Loader.Prepare | loader.py:158-160 | one parcel gets its deadline score and its linked flag |
| Loaders.Loader.CreateParcelGroup | loader.py:29-39 | a new group of table parcels with distinct ids; for a parcel with a node it does not raise and holds every table parcel bound there |
| Loaders.Loader.FillGroup | loader.py:35-39 | a new group built from the items, holding each of them unless add_parcel raised; never raising when all go to one node |
| Loaders.Loader.ParcelsAt | loader.py:34 | with a node, exactly the table's parcels bound for it; with None, every parcel of the table |
| Loaders.Loader.AddItem | parcel_group.py:20-36 | add_parcel appends the parcel unless the group holds its id, and never raises for a parcel bound for the group's node |
| Loaders.Loader.GetAllLinkedParcels | loader.py:41-49 | exactly the linked parcels of the table, in items() order |
| Loaders.Loader.AddCandidate | loader.py:119-128 | a full load or a held parcel changes nothing; below capacity the parcel ends up held, and a linked one brings every linked parcel; a sound load stays sound and its destinations become OfferAt of the old ones |
| Loaders.Loader.AddWithLinks | loader.py:120-128 | the parcel ends up held, and when linked every linked parcel of the table too; a sound load stays sound and its destinations become TakeAt of the old ones |
| Loaders.Loader.AddLinkedGroups | loader.py:124-128 | every linked parcel of the table ends up held, whatever the load count; a sound load stays sound and its destinations become the expansion over the table's linked entries |
| Loaders.Loader.AddEach | loader.py:125-128 | every parcel of the list ends up held; a sound load stays sound and its destinations become ExpandAt over the parcels' entries |
| Loaders.Loader.Link | loader.py:126-128 | the i-th linked parcel ends up held and the loop state moves on to i + 1: the load extends its start and its destinations are the first i + 1 entries added in turn |
| Loaders.Loader.AddGroupFor | loader.py:120-122 | a held parcel changes nothing; otherwise one new group is appended and the parcel is then held; the destinations become AddAt of the old ones |
| Loaders.Loader.BuildParcelList | loader.py:110-152 | the result is the trim of the built load; for table parcels with nodes the built load is Filled: sound, each candidate held unless the load had filled up, and its destinations exactly the greedy pass over the deadline candidates followed by the sorted remaining ones |
| Loaders.Loader.FillLoad | loader.py:117-140 | from an empty load the two candidate loops leave a Filled load: its destinations are the greedy pass (GreedyAt) over the deadline candidates then the sorted ones, it is sound, and every candidate is held or was passed over full |
| Loaders.Loader.SortRemaining | loader.py:115 | the descending sort of the remaining parcels, keeping every parcel; it is stable by LoadPlans.SortDescendingStable |
| Loaders.Loader.AddCandidates | loader.py:130-140 | the load only grows at its end; from a sound load, it stays sound and its destinations become the greedy pass over the candidates' entries, so each candidate was offered in turn and taken unless the load was full at that moment |
| Loaders.Loader.Offer | loader.py:131-140 | one pass of the candidate loop: the load extends the start, and from a sound start its destinations are the greedy pass over the first i + 1 candidates |
| Loaders.Loader.TrimLoad | loader.py:142-152 | the loop computes exactly the trim: fits or raises IndexError |
| Loaders.Loader.ReorderParcels | loader.py:62-81 | the groups arranged along the route from the hub; with distinct destinations, a rearrangement of the load where group k goes to stop k with the priority for position k |
| Loaders.Loader.PlanRoute | loader.py:63-73 | the destinations of the load and the route through them from the hub, which visits each of distinct destinations once |
| Loaders.Loader.AssignPriorities | loader.py:75-81 | the groups in route order; when the groups and the stops are distinct, each group bound for stop k gets the priority for position k |
| Loaders.Loader.AssignNext | loader.py:76-80 | the groups bound for the next stop are appended and given their priorities |
| Loaders.Loader.AssignStop | loader.py:77-80 | the groups bound for the stop, in load order; when the groups are distinct, each of them gets the priority for this position; no other group changes |
| Loaders.Loader.SendToTruck | loader.py:83-87 | the truck's queue becomes the old one with every group pushed in turn, and each parcel of the load is en route on the truck; every other parcel keeps its status |
| Loaders.Loader.SendLoad | loader.py:191 | send_to_truck, leaving the table, its parcels, their destinations and the status of every parcel outside the load as they were |
| Loaders.Loader.ReorderLoad | loader.py:190 | reorder_parcels, leaving the table, its parcels and their destinations as they were |
| Loaders.Loader.SendGroup | loader.py:86-87 | the i-th group is pushed and its parcels are en route alongside those before it; the parcels given as outside the group keep their status |
| Loaders.Loader.LoadTruck | loader.py:179-191 | the candidates are the first share of the deadline lookup at the hub and the remaining lookup; a table parcel outside `sent` keeps its status; a raise of the trim leaves the truck and every status as they were; otherwise `sent` holds the groups of `kept` each once, all of them groups of the built load, within the truck's capacity, of table parcels now en route on the truck, which now holds its old groups and those of `sent` |
| Loaders.Loader.DeliverLoad | loader.py:190-191 | the load the truck receives is the arrangement along the route from the hub; over distinct destinations it is the load rearranged, with the same parcel count; the truck then holds its old groups and those, whose parcels are en route on it, and every other parcel keeps its status |
| Loaders.Loader.BuildLoad | loader.py:189 | the trim of the built groups, which are Filled over the share and the sorted remaining parcels; None exactly where the trim raises; otherwise new groups of the built load with distinct destinations, each linked one among them, of table parcels within capacity, reachable from the hub |
| Loaders.Loader.PrepareLoad | loader.py:189 | the trim of the built groups, new groups of table parcels with distinct destinations reachable from the hub and within capacity |
| Loaders.Loader.Candidates | loader.py:179-187 | the first share of the deadline parcels at the hub, or all of them, and the remaining parcels |
| Loaders.Loader.Run | loader.py:162-191 | no trucks raise; 1 exactly when no parcel without a deadline is AT HUB, and then no truck and no status changes; the table is kept |
| Loaders.Loader.Survey | loader.py:169-173 | the share is None exactly for no trucks, else the deadline share of the lookup; the remaining lookup; nothing changes |
| Loaders.Loader.LoadTrucks | loader.py:178-191 | each truck is loaded in turn with the same share; the table is kept |
| Loaders.Loader.CheckDuplicates | loader.py:99-108 | true exactly when some group of the load holds a parcel with the same id |
| Loaders.Loader.GetLoadCount | loader.py:89-97 | the total number of parcels in the load's groups |
| Simulators.SplitOnAbsent | table.py:104 | a string without the separator splits into itself alone |
| Simulators.OneWordStatusOk | table.py:103-110 | a one-word status criterion that is not negated holds exactly when the word occurs in the status |
| Simulators.ReceivedStatusOk | main.py:225 | the criterion INFORMATION RECEIVED holds exactly when the status contains those words |
| Simulators.NoCommaInReceived | main.py:225 | the criterion is a single word of the status split |
| Simulators.ReceivedMatches | main.py:225 | the lookup never raises and finds a parcel exactly when its status contains INFORMATION RECEIVED |
| Simulators.AtHubNotReceived | main.py:227 | a parcel put AT HUB is no longer found by that lookup |
| Simulators.RemainingEmpty | loader.py:173-176 | the remaining lookup is empty, so run returns 1, exactly when no parcel without a deadline has AT HUB in its status, whatever the parcels with a deadline |
| Simulators.DeadlineParcelLeftAtHub | loader.py:173-176 | a parcel with a deadline AT HUB, with every parcel without one delivered, still leaves the remaining lookup empty |
| Simulators.Simulator.constructor | main.py:120-131 | the simulator holds the clock, the two trucks and the loader it is given |
| Simulators.Simulator.Update | main.py:198-227 | the clock takes one tick step; a paused clock raises and no truck changes; otherwise both trucks are at the new time, a truck replying 1 is at the hub, it finishes its day exactly when its run found no parcel without a deadline AT HUB, and no parcel whose arrival time has come is still waiting |
| Simulators.Simulator.TickClock | main.py:204-205 | a running clock takes one tick step and raises exactly when paused; a stopped one stays as it was |
| Simulators.Simulator.UpdateTrucks | main.py:208-209 | both trucks are at the new time, no day is finished, and the clock and the table are kept |
| Simulators.Simulator.UpdateTruck | main.py:208 | the truck is at the new time; the clock, the other truck and the table are kept |
| Simulators.Simulator.Reloads | main.py:212-222 | a truck that replied 1 is started at the hub at the new time, the others keep their time; a truck finishes its day exactly when its run returned 1; truck 1's run returns 1 exactly when the remaining lookup was empty on entry, and so does truck 2's when truck 1 did not reload |
| Simulators.Simulator.ReloadTruck | main.py:212-217 | the run returns 1 exactly when no parcel without a deadline was AT HUB, and then the cargo and every status are unchanged; a started truck is at the hub at the new time heading for the first stop of its cargo; the other truck is kept |
| Simulators.Simulator.Reload | main.py:213-214 | run([truck]) then start: 1 exactly when no parcel without a deadline was AT HUB, and the cargo and every status are then unchanged; the truck starts exactly when the run did not raise and its first leg has a distance |
| Simulators.Simulator.StartTruck | truck.py:102-108 | the truck is at the hub at the new time, heading for the first stop of its cargo, arriving at the computed time |
| Simulators.Simulator.FinishDays | main.py:219-222 | each truck's day is finished exactly when it was or its run returned 1; nothing else changes |
| Simulators.Simulator.Promotion | main.py:225-227 | it raises exactly when a waiting parcel has no arrival time; otherwise each waiting parcel whose time has come is AT HUB, every other parcel keeps its status, and the clock and the trucks are kept |
| Simulators.Simulator.PromoteArrivals | main.py:225-227 | the parcels found are exactly those waiting; it raises exactly when one of them has no arrival time; otherwise those whose time has come are AT HUB and every other parcel keeps its status |
| Simulators.Simulator.Promote | main.py:225-227 | the loop over the parcels found: same outcome as the promotion step |
| Simulators.Simulator.PromoteNext | main.py:226-227 | a parcel without an arrival time raises; otherwise it is put AT HUB exactly when its time has come |

## Left out

**Outside the model**

- The simulation loop of `Simulator.run`, the lock, the queue, the
  `Controller` thread and the `main` input loop (main.py:134-196,
  250-341). They are concurrency, sleeping and console input.
- All console output: `clear`, the prints of `update`, `print_all`,
  `print_cargo` and every `__str__`. They are output only.
  - `Util.NatToString` and `Util.IntToString` exist for `Parcel.__str__`'s
    id and for the id filter of `lookup`.
- `graph.load` and `parcel.load`, which read CSV files (graph.py:116-157,
  parcel.py:150-171).
  - The model starts from a built graph and table.
  - The parcel constructor takes the id as an integer, so `int(id_)`
    raising on its text is not modelled.
- `test()`, `truck_3` and the module-level wiring of main.py.
  - The simulator receives its clock, trucks and loader in its
    constructor.
- Default arguments: the truck's `capacity=16` (truck.py:9), the clock's
  `start_time=800` and `interval=1` (main.py:58) and the table's
  `table_size=10` (table.py:5). The model's constructors take these as
  parameters without defaults.
- The truck's `driver` argument and attribute (truck.py:9,16): nothing
  in the scheduling reads them.
- Getters with no logic of their own: `Truck.get_total_miles`,
  `get_max_capacity`, and the plain field reads of `ParcelGroup` and
  `Parcel`. They are field reads in the model.

**Python semantics simplified**

- Floating point. Mileages and distances are exact `real`s, and
  `ceil(dist / 0.4)` is computed exactly, with no IEEE rounding.
- `hash(k)` is `k`. Only integer keys (parcel and node ids) are stored.
- `Util.Upper`: `str.upper()` is modelled for ASCII letters only; other
  characters are left as they are.
- `Util.ParseInt`: `int()` of a string is modelled for ASCII digits, an
  optional sign and surrounding ASCII whitespace.
- `Util.Words`, `Util.StripLeft` and `Util.StripRight`: `str.split()` and
  `strip()` treat the ASCII whitespace of `Util.IsSpace` as whitespace;
  `\x85`, `\xa0` and the other Unicode spaces are not.
- Parcels.Parcel.constructor requires a deadline text that `int()`
  accepts, where the source would raise `ValueError` before the object
  exists.

**Where the source crashes on malformed input**

Crashes that come from missing graph data are preconditions rather than
error results. With a complete distance table and every parcel placed on
a node, none of them can happen; the precondition names what that means.

- `Loaders.Routable` and `Loaders.Resolved`: every parcel has its node,
  and the hub and every parcel's node are at a known distance from one
  another. `Loaders.Loader.Valid` is only the well-formedness of the
  table and the graph.
- `Trucks.Truck.CanUpdate` also excludes a leg without a distance at
  truck.py:120. Python would add `inf` to the mileage there without
  raising.
- `Trucks.Truck.CanUpdate`: the nodes a truck's next arrival and
  departure use are connected.
- `allocated` preconditions on table parcels come from the generic table
  and do not restrict any caller.

**Weaker contracts**

- Trucks.Leg: a leg with a negative distance is treated like one without
  a distance (start does not happen). Python would compute an arrival
  time from a negative travel time.
- Loaders.Loader.CreateParcelGroup: for a parcel with no node, the lookup
  returns every parcel. The contract then states only that the group
  holds table parcels with distinct ids, not which ones.
- Loaders.Loader.ParcelsAt: states which parcels the lookup finds, not
  their order. Lookups.FilterMembers and Lookups.Lookup state the order.
- Loaders.Loader.TrimLoad: counts the load with `TotalParcels`, the
  function `get_load_count` is proved equal to. It does not re-run that
  loop.
- Loaders.Loader.ReorderParcels: states that the result is a permutation,
  and group k's stop and new priority, only when the destinations are
  distinct. Loads built by `build_parcel_list` are distinct by
  `Loaders.Sound`.
- Loaders.RouteFrom: its ensures is stated against the state on entry.
  It changes nothing.
- Loaders.Loader.Run: when some truck's load raises, the contract does
  not say which trucks had already been loaded.
- Loaders.Loader.LoadTrucks: likewise, it does not say what each truck
  received, and Loaders.Loader.Run does not either when run returns 0.
  Loaders.Loader.LoadTruck states it for one pass of the loop only.
- Loaders.Loader.LoadTruck: does not state that `kept` is the trim of the
  built load, nor the plan and placement of the built load.
  Loaders.Loader.BuildLoad and Loaders.Loader.PrepareLoad state these.
  LoadTruck does not restate them after reorder_parcels has changed the
  groups' priorities.
- Simulators.Simulator.Reloads: when both trucks reply 1, truck 2's result
  is not tied to a lookup, because truck 1's run has already changed
  statuses.
- Simulators.Simulator.Update: does not restate two things that
  Simulators.Simulator.Reloads and Simulators.Simulator.Promotion state in
  the intermediate states: the tie between the reloads and the remaining
  lookup, and the promotion's status map.
- Loaders.Loader.SortRemaining: `list.sort` reorders the caller's list in
  place. The model returns a new sorted sequence, and the caller's
  sequence is not visible to anyone afterwards.
- Simulators.Simulator.Update: does not repeat the next node and arrival
  time of a truck started from the hub. Simulators.Simulator.ReloadTruck
  and Simulators.Simulator.StartTruck state them.
- Simulators.Simulator.PromoteArrivals and Simulators.Simulator.Promote:
  when a waiting parcel without an arrival time raises, the parcels
  already promoted are not described.
- Parcels.Parcel.constructor: `int()` raising on a malformed deadline is
  excluded by its precondition, as above.

**Dead code**

- The slice at loader.py:185 assigns `deadline_parcels`, which the next
  pass of the loop looks up again (loader.py:179). The model takes each
  truck's share from a fresh lookup.
