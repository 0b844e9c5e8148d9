# Open vSwitch client and DPDK learning switch: a verified model

The repository holds a copy of the Go package `go-openvswitch` and a DPDK learning switch written in C.
This project models the parts of both that carry real state or arithmetic, and proves what they are for.

- **RPC multiplexer** (`RpcClient`, `RpcInvariant`, `RpcTheorems`, `RpcRuns`,
  `EchoDeadlock`, `RpcClientClass`). The OVSDB client is a
  state machine whose steps are the critical sections, atomic counter updates, channel operations and socket
  operations of its callers, its listener, its echo loop and its ticker. The server is the environment: it may
  reorder, duplicate, invent or omit responses. The class `Client` holds the fields that the mutex protects;
  each of its methods is proved to be one step of the machine.
- **Port ranges** (`Bits`, `PortRanges`, `BitPositions`, `AllMasks`). The recursive 16-bit algorithm is a method, proved against a
  specification that cuts the largest aligned block off the high end again and again. The mathematics is about
  that specification: exact cover, minimality among prefix masks, the shape of the widths, the bound of 30, and
  the exact condition under which no list with any masks is shorter.
- **Matches** (`Net`, `Matches`, `MatchParser`, `MatchRoundTrip`, `MatchText`) and **actions** (`Actions`, `ActionDispatch`,
  `ActionParser`, `ActionRoundTrip`, `ActionImage`, `ActionEnds`,
  `ActionText`). Printing and parsing, with Go's regular expressions, `Sscanf` and
  `strconv` spelled out over ASCII text (`Text`, `Numerals`), and the exact condition under which printing and parsing are
  inverse. The action parser is a class with a reader and a parenthesis stack.
- **Flows** (`Flows`, `FlowRoundTrip`, `FlowExact`, `ReadBack`, `FlowDumps`). The class `Flow` grows its buffer and updates its fields as
  the original does. `FlowExact.FlowRoundTrips` says of every flow that marshals whether it is restored from its
  text; the condition is about the flow's own protocol, flags and actions.
- **Bundles** (`Bundles`). The flow transaction as a class, and what a bundle pipes for every sequence of calls.
- **Learning switch, ARP table and set-up** (`LearningSwitch`, `ArpCache`, `PortAssignment`). In-place array
  algorithms, refined to a map, to a first-in, first-out cache and to a partition of the ports. One frame is one
  atomic step.

Some results are negative or need a condition; each has an input and its exact condition.

- Some actions do not come back from their text: `set_tunnel`, negative `resubmit` arguments, white space in
  `ct`, and `load` or `set_field` texts that hold an earlier pattern or an inner arrow
  (`ActionRoundTrip.RoundTrips`).
- What was read may not be printable, such as `output:-1` or `nw_src=foo`, or may print to a text that cannot be
  read, such as `(ct(a))`, whose text `ct(a))` makes the parser panic. `ReadBack.ReadActionComesBack` and
  `ReadBack.ReadFlowRestored` say exactly which actions and flows come back.
- A list of actions can end early without an error: `fmt.Sscanf` reports `io.EOF` for a prefix with nothing after
  it, such as `output:`, and the parser takes that for the end of its input (`ActionEnds.ParsedRejoins`).
- The cover of a port range is minimal among prefix masks, but among all masks only under the condition of
  `AllMasks.MinimalExactly`.
- The learning switch adds 3 to its packet counter for every flood, which counts the enqueued packets with four
  ports (`LearningSwitch.CounterExact`).
- The comments on `Add` and `Delete` call an invalid call a no-op; the flows before the invalid one stay in the
  transaction (`Bundles.PushIsNoOp`). Here and elsewhere the model follows the code.
- The listener and the echo loop can wait for each other until the client is closed
  (`EchoDeadlock.BlockedExactly`).

`dafny verify dfyconfig.toml` checks the whole project.

## Model

| member | source | states |
|---|---|---|
| `RpcInvariant.StepKeepsInv` | ntlink/go/go-openvswitch/ovsdb/client.go:157-419 | every step of every goroutine keeps the invariant that ties callbacks, channels, outcomes and the processed responses together, while fewer than 2^64 IDs have been drawn |
| `RpcInvariant.RunKeepsInv` | ntlink/go/go-openvswitch/ovsdb/client.go:157-419 | the invariant holds after every interleaving of callers, cancellations, server messages and background goroutines |
| `RpcInvariant.IdsDistinct` | ntlink/go/go-openvswitch/ovsdb/client.go:157-162 | two request IDs drawn before the 64-bit counter has wrapped have different texts |
| `RpcInvariant.RegisterFindsIdFree` | ntlink/go/go-openvswitch/ovsdb/client.go:226-230 | when a call registers, its ID is not in the callbacks map |
| `RpcInvariant.FoundChannelIsFresh` | ntlink/go/go-openvswitch/ovsdb/client.go:401-418 | the channel behind a callback found by the listener is open, empty and untouched, so the send cannot block or panic |
| `RpcInvariant.FirstAnswerAppend` | ntlink/go/go-openvswitch/ovsdb/client.go:397-419 | processing one more response changes the first answer of a call only if the response carries its ID and there was none yet |
| `RpcInvariant.DeliveryEffect` | ntlink/go/go-openvswitch/ovsdb/client.go:407-418 | a delivery closes the channel once, fills it exactly when the send arm was taken, drops the callback and changes no other call |
| `RpcTheorems.AnswersAreFirst` | ntlink/go/go-openvswitch/ovsdb/client.go:203-266 | a call that returns a server outcome returns the first response processed for its own ID after it registered; a context error only when its context is done; never nil without a response |
| `RpcRuns.WaitingCallConcludes` | ntlink/go/go-openvswitch/ovsdb/client.go:248-265 | from any reachable state in which a call waits: after any further steps it still waits, or it has the context error and its context is done, or it has the first response to its own ID; never a send error |
| `RpcRuns.CancelledCallLeaves` | ntlink/go/go-openvswitch/ovsdb/client.go:249-254 | a waiting call whose context is done can leave, with the context error |
| `RpcRuns.BlockedWhileUnanswered` | ntlink/go/go-openvswitch/ovsdb/client.go:203-266 | a call that has not returned has a step of its own except exactly while it waits, its context is not done, and no response for its ID was processed since it registered |
| `RpcRuns.OutsideIsFree` | ntlink/go/go-openvswitch/ovsdb/client.go:203-310 | in every reachable state calls may start, contexts be cancelled, sends fail and the server send anything that the listener is there to receive |
| `RpcRuns.SendErrFromFailure` | ntlink/go/go-openvswitch/ovsdb/client.go:244-246 | over any run a call ends with a send error only if its own send failed, in just that way |
| `RpcRuns.FailureEnds` | ntlink/go/go-openvswitch/ovsdb/client.go:244-246 | and a failed send ends it with that error |
| `RpcRuns.DoneContextNeverStarts` | ntlink/go/go-openvswitch/ovsdb/client.go:204-209 | a call entered with a done context draws no ID, registers nothing and can only return the context error |
| `RpcRuns.ContextIsKept` | ntlink/go/go-openvswitch/ovsdb/client.go:203-229 | over any run a call keeps the context it was started with |
| `RpcRuns.LogIsReceived` | ntlink/go/go-openvswitch/ovsdb/client.go:270-310 | the responses processed, with the one being dispatched, are what the server sent, each once and in order of arrival |
| `RpcRuns.EchoesAreCounted` | ntlink/go/go-openvswitch/ovsdb/client.go:358-372 | the two echo counters hold the numbers of successful echoes and of those that failed for another reason than a closed connection, modulo 2^64 |
| `RpcRuns.GoroutinesRun` | ntlink/go/go-openvswitch/ovsdb/client.go:184-373 | over any run of a new client the echo loop, and the ticker if there is one, go on until the client's context is cancelled, and the listener until its input ends, whatever messages and errors come; the connection is closed only after the cancellation |
| `RpcRuns.DrainsInOrder` | ntlink/go/go-openvswitch/ovsdb/client.go:270-281 | on a closed connection the listener takes what is left in it, message by message and in order |
| `RpcRuns.TakesAllBeforeExit` | ntlink/go/go-openvswitch/ovsdb/client.go:270-281 | the listener of a closed client exits only after it took every message that was in flight at the close |
| `RpcRuns.TickSendsEcho` | ntlink/go/go-openvswitch/ovsdb/client.go:322-358 | a tick that finds the echo loop waiting makes it start an echo call in the client's context, and the ticker goes on |
| `RpcRuns.AnswerArrives` | ntlink/go/go-openvswitch/ovsdb/client.go:203-266 | a call that sends its request and gets a response to its ID returns exactly that response, and its callback is gone |
| `RpcTheorems.FirstResponseFindsCallback` | ntlink/go/go-openvswitch/ovsdb/client.go:225-265 | until a registered call is cleaned up, its callback is present exactly as long as no response for its ID has been processed, and from then on its select can fire |
| `RpcTheorems.DeliveredToOwner` | ntlink/go/go-openvswitch/ovsdb/client.go:401-418 | a dispatched response ends up in the channel of the call that drew its ID; every other call is unchanged |
| `RpcTheorems.ChannelDiscipline` | ntlink/go/go-openvswitch/ovsdb/client.go:225-265 | in every reachable state nothing has panicked, each channel had at most one send and one close, and `doCallback` always has an enabled arm, so `cbMu` is not held by a blocked goroutine |
| `RpcTheorems.ClosedEmptyMeansCancelled` | ntlink/go/go-openvswitch/ovsdb/client.go:255-261 | a channel found closed without a value means that the call's context is done, so this branch returns a non-nil error |
| `RpcTheorems.CallbacksHaveOneOwner` | ntlink/go/go-openvswitch/ovsdb/client.go:382-419 | each ID in the map belongs to exactly one call, which has registered and not returned |
| `RpcTheorems.NoLeak` | ntlink/go/go-openvswitch/ovsdb/client.go:172-184 | once every call has returned the map is empty |
| `RpcTheorems.RegistrationNeverPanics` | ntlink/go/go-openvswitch/ovsdb/client.go:383-393 | the duplicate-ID panic is unreachable |
| `RpcTheorems.ShutdownStep` | ntlink/go/go-openvswitch/ovsdb/client.go:165-170 | after cancel and close each step of the listener, ticker or echo loop lowers a measure, and no other step raises it |
| `RpcTheorems.ShutdownIsBounded` | ntlink/go/go-openvswitch/ovsdb/client.go:270-373 | however callers interleave, the background goroutines take at most that many steps |
| `RpcTheorems.ShutdownProgress` | ntlink/go/go-openvswitch/ovsdb/client.go:270-373 | until it has exited, each background goroutine has an enabled step of its own; the measure is 0 exactly when all have exited |
| `RpcTheorems.CloseTerminates` | ntlink/go/go-openvswitch/ovsdb/client.go:165-170 | the wait of `Close` ends: a run that has used up the measure has brought all three goroutines to their exit |
| `EchoDeadlock.BlockedExactly` | ntlink/go/go-openvswitch/ovsdb/client.go:286-296 | before the client's context is cancelled, while both goroutines run, neither the listener nor the echo loop has a step if and only if the listener waits to hand an echo over and the echo loop waits for a response that was not dispatched |
| `EchoDeadlock.DeadlockIsReachable` | ntlink/go/go-openvswitch/ovsdb/client.go:286-358 | that mutual wait is reachable: two echo requests in a row bring a new client to it |
| `EchoDeadlock.WaitStays` | ntlink/go/go-openvswitch/ovsdb/client.go:286-358 | no step of anybody but the cancellation ends the mutual wait, and none is a step of the two goroutines |
| `EchoDeadlock.WaitLasts` | ntlink/go/go-openvswitch/ovsdb/client.go:286-358 | however callers, ticker and server go on, the wait lasts until the client's context is cancelled |
| `EchoDeadlock.CancelFrees` | ntlink/go/go-openvswitch/ovsdb/client.go:291-294 | the cancellation gives both goroutines a step |
| `RpcClientClass.Client.RequestID` | ntlink/go/go-openvswitch/ovsdb/client.go:157-162 | the counter update is the machine's step and the result is the text of the number drawn |
| `RpcClientClass.Client.AddCallback` | ntlink/go/go-openvswitch/ovsdb/client.go:383-393 | the critical section is the machine's registration step and does not panic |
| `RpcClientClass.Client.DoCallback` | ntlink/go/go-openvswitch/ovsdb/client.go:397-419 | the critical section is one of the machine's dispatch steps, whichever enabled arm the select takes |
| `RpcClientClass.Client.RemoveCallback` | ntlink/go/go-openvswitch/ovsdb/client.go:237-242 | the deferred clean-up is the machine's clean-up step |
| `RpcClientClass.Client.CurrentCallbacks` | ntlink/go/go-openvswitch/ovsdb/client.go:173-184 | the reported number is the size of the map, and 0 once all calls have returned |
| `RpcClientClass.DeliveryRepresented` | ntlink/go/go-openvswitch/ovsdb/client.go:407-418 | dropping the callback and closing the channel in the object's fields gives the machine's next state |
| `PortRanges.BitwiseMatch` | ntlink/go/go-openvswitch/ovs/portrange.go:43-112 | the original loop and recursion in 16-bit arithmetic fail exactly on invalid ranges and otherwise give an exact, non-overlapping, ascending, adjacent cover by prefix masks, of minimal length, with 1 to 30 entries |
| `PortRanges.FindBlock` | ntlink/go/go-openvswitch/ovs/portrange.go:59-69 | the window, the floor of its logarithm and the narrowing loop find the largest aligned block that ends the range, and it ends at the end of the range |
| `PortRanges.MaskOfBits` | ntlink/go/go-openvswitch/ovs/portrange.go:114-117 | the mask of k free bits is 2^16 - 2^k, without wrap-around |
| `PortRanges.RangeAround` | ntlink/go/go-openvswitch/ovs/portrange.go:119-130 | the block around `end` never wraps and ends at `end` exactly when `end + 1` is aligned |
| `PortRanges.AcceptsBlock` | ntlink/go/go-openvswitch/ovs/portrange.go:34-39 | an entry with an aligned value accepts exactly its block of ports, any other value none |
| `PortRanges.CoverIsExact` | ntlink/go/go-openvswitch/ovs/portrange.go:57-112 | the cover accepts each port of the range exactly once and no other port; its entries lie end to end |
| `PortRanges.CoverIsMinimal` | ntlink/go/go-openvswitch/ovs/portrange.go:43-112 | no list of prefix-masked entries that accepts exactly the range is shorter |
| `PortRanges.LastBlockAbsorbs` | ntlink/go/go-openvswitch/ovs/portrange.go:59-74 | any aligned block inside the range that meets the last block of the cover lies inside it |
| `PortRanges.ShorterWithOtherMasks` | ntlink/go/go-openvswitch/ovs/portrange.go:114-117 | an input where the cover is not minimal among all masks: ports 1 to 6 take four prefix entries, and three general ones accept exactly them |
| `AllMasks.SmallestRange` | ntlink/go/go-openvswitch/ovs/portrange.go:43-112 | no range of fewer than six ports and none that ends before port 6 has a cover that is not minimal among all masks; ports 1 to 6 have one |
| `AllMasks.UpsGap` | ntlink/go/go-openvswitch/ovs/portrange.go:43-112 | u counted positions put End + 1 at least 2^u - 1 above Start - 1 |
| `AllMasks.CoverHasSlots` | ntlink/go/go-openvswitch/ovs/portrange.go:57-112 | the cover has one entry for each zero of Start - 1 and each one of End + 1 below the highest bit in which they differ |
| `AllMasks.AnyListHasSlots` | ntlink/go/go-openvswitch/ovs/portrange.go:43-112 | with at most one further position at which End + 1 has a one and Start - 1 a zero, counted up to the first opposite one, every list of entries with any masks that accepts exactly the range is at least that long |
| `AllMasks.ShorterList` | ntlink/go/go-openvswitch/ovs/portrange.go:43-112 | with two such positions there is an exact list with one entry less, whose masks have gaps |
| `AllMasks.MinimalExactly` | ntlink/go/go-openvswitch/ovs/portrange.go:43-112 | for every range: the cover is minimal among all lists of value/mask entries, whatever their masks, if and only if End + 1 has at most two ones that Start - 1 lacks, read from the top to the first one that Start - 1 has and End + 1 lacks |
| `PortRanges.WidthsDescribeCover` | ntlink/go/go-openvswitch/ovs/portrange.go:71-74 | the width list gives the free bits of the cover's entries, read from the high end |
| `PortRanges.WidthsArePeaked` | ntlink/go/go-openvswitch/ovs/portrange.go:59-112 | read from the high end, widths strictly increase, may repeat once at the peak, then strictly decrease |
| `PortRanges.CoverHasAtMost30` | ntlink/go/go-openvswitch/ovs/portrange.go:43-112 | every valid range gives 1 to 30 entries |
| `PortRanges.CoverMeetsContract` | ntlink/go/go-openvswitch/ovs/portrange.go:43-112 | the cover meets the whole contract: exact, once, adjacent, prefix-masked, minimal, at most 30 |
| `PortRanges.EntryFits` | ntlink/go/go-openvswitch/ovs/match.go:606-627 | no mask of a cover that starts at port 1 or later is zero |
| `Matches.MaskedPorts` | ntlink/go/go-openvswitch/ovs/match.go:606-628 | fails exactly on invalid ranges and otherwise gives one transport-port match for each entry of the cover, in order, of the given direction and printed under the literal `tp_src=` or `tp_dst=` |
| `MatchParser.ParseChunks` | ntlink/go/go-openvswitch/ovs/matchparser.go:185-227 | the buffer loop succeeds exactly on lengths divisible by four and gives the four-character pieces |
| `MatchParser.ParseMaskedLoop` | ntlink/go/go-openvswitch/ovs/matchparser.go:252-348 | the loop over the parts of `value/mask` gives the value and mask of the specification or the first part's error |
| `MatchParser.ParsePortLoop` | ntlink/go/go-openvswitch/ovs/matchparser.go:120-161 | one part is a clamped decimal port, two parts a hexadecimal port and mask, anything else an error |
| `MatchParser.ParsePortParts` | ntlink/go/go-openvswitch/ovs/matchparser.go:136-148 | the loop succeeds exactly when both parts are hexadecimal and within the limit, and gives their values |
| `MatchParser.FailedPart` | ntlink/go/go-openvswitch/ovs/matchparser.go:254-271 | the first part that does not parse decides the result |
| `MatchRoundTrip.LookupFinds` | ntlink/go/go-openvswitch/ovs/matchparser.go:28-80 | the switch on the key finds every key that a match prints |
| `MatchRoundTrip.MaskedParses` | ntlink/go/go-openvswitch/ovs/matchparser.go:252-348 | for all values and masks of 16, 32 or 64 bits, the printed value or value/mask parses to the same pair |
| `MatchRoundTrip.PortParses` | ntlink/go/go-openvswitch/ovs/match.go:961-968 | for every port and mask the printed form, decimal or masked, parses back |
| `MatchRoundTrip.VlanParses` | ntlink/go/go-openvswitch/ovs/match.go:190-200 | every valid VLAN ID parses back from its decimal form |
| `MatchRoundTrip.MacMaskIdempotent` | ntlink/go/go-openvswitch/ovs/match.go:117-143 | what a data-link match prints marshals to itself |
| `MatchRoundTrip.AddressIdempotent` | ntlink/go/go-openvswitch/ovs/match.go:900-945 | what an address match prints marshals to itself, for IPv4 and IPv6, addresses and CIDR blocks |
| `MatchRoundTrip.ChunksRejoin` | ntlink/go/go-openvswitch/ovs/matchparser.go:185-227 | the four-character pieces rejoin to the text |
| `MatchRoundTrip.ChunksOfJoined` | ntlink/go/go-openvswitch/ovs/matchparser.go:185-227 | cutting the join of a non-empty list of four-character entries gives the list back |
| `MatchRoundTrip.ValueRoundTrip` | ntlink/go/go-openvswitch/ovs/matchparser.go:28-80 | for each kind of match the value parses, under its key, to the same match with the same value text, or fails when the flags' length does not fit |
| `MatchRoundTrip.MatchRoundTrips` | ntlink/go/go-openvswitch/ovs/matchparser.go:28-371 | for every match that marshals: its text splits at `=` into key and value if and only if the value holds no `=`; and parsing key and value gives the same match, of the same kind and equal up to the canonical form of an address or the cutting of flags, with the same text, if and only if the joined flags' length is a multiple of four |
| `MatchText.MatchTextIs` | ntlink/go/go-openvswitch/ovs/match.go:117-968 | the exact text of every match: its literal key, exactly four or eight lower-case hexadecimal digits, shortest numerals, canonical addresses, and a mask only if it is not zero |
| `MatchText.MatchErrors` | ntlink/go/go-openvswitch/ovs/match.go:117-968 | which error each kind of match gives when it does not marshal |
| `MatchText.DecimalKeys` | ntlink/go/go-openvswitch/ovs/matchparser.go:84-161 | the decimal keys take the numbers of their type and refuse larger ones; negative ones are cut to the type without an error |
| `MatchText.DecimalMasked` | ntlink/go/go-openvswitch/ovs/matchparser.go:252-348 | `vlan_tci`, `ct_mark` and `tun_id` take a decimal number, cut to their width, without a mask |
| `MatchText.HexReads` | ntlink/go/go-openvswitch/ovs/matchparser.go:350-371 | hexadecimal text is read with or without 0x, below its limit and not from there on |
| `MatchText.HexParts` | ntlink/go/go-openvswitch/ovs/matchparser.go:233-371 | the limits of hexadecimal values: 32 bits for the fields of 16 and 32 bits, which are then cut, and 64 bits for the tunnel ID |
| `MatchText.AddressKeys` | ntlink/go/go-openvswitch/ovs/matchparser.go:40-69 | the nine keys of addresses take any text, each as its own kind of match |
| `MatchText.HardwareKeys` | ntlink/go/go-openvswitch/ovs/matchparser.go:163-182 | the four keys of hardware addresses take exactly the texts that Go's parser takes, each as its own kind of match |
| `MatchText.UnknownKeys` | ntlink/go/go-openvswitch/ovs/matchparser.go:27-80 | each of the 26 literal keys is known, and the error for an unknown key comes exactly if the key is none of them |
| `MatchRoundTrip.EntryEndToEnd` | ntlink/go/go-openvswitch/ovs/match.go:606-634 | the match of one range entry has a mask, comes back from its text, and accepts what the entry accepts |
| `MatchRoundTrip.PortRangeEndToEnd` | ntlink/go/go-openvswitch/ovs/match.go:606-634 | all matches of a range printed and parsed back accept exactly the ports Start..End, each port once |
| `Net.MacRoundTrip` | ntlink/go/go-openvswitch/ovs/match.go:950-957 | a six-byte address parses back from its colon form |
| `Net.LawfulLibrary` | ntlink/go/go-openvswitch/ovs/match.go:900-945 | a library that reads an IPv4 address, an IPv6 address and a block obeys the law that the results ask of address parsing |
| `Numerals.PrefixedReads` | ntlink/go/go-openvswitch/ovs/flow.go:239-249 | with base 0, decimal, hexadecimal and octal numerals are read for their value |
| `Numerals.IntReads` | ntlink/go/go-openvswitch/ovs/flow.go:226-236 | a signed decimal number is read with at most one sign, exactly within 64 bits |
| `Numerals.Trims` | ntlink/go/go-openvswitch/ovs/flow.go:206-222 | trimming takes the white space off both ends and nothing else |
| `Numerals.HexPaddedExact` | ntlink/go/go-openvswitch/ovs/flow.go:377-381 | a number of at most w hexadecimal digits is padded to exactly w |
| `ActionRoundTrip.PrefixedDispatch` | ntlink/go/go-openvswitch/ovs/actionparser.go:196-322 | a prefixed text without parentheses reaches its own branch and no earlier one |
| `ActionRoundTrip.VerbFound` | ntlink/go/go-openvswitch/ovs/actionparser.go:196-322 | the first prefix that fires on a prefixed text is its own |
| `ActionRoundTrip.ConjunctionDispatch` | ntlink/go/go-openvswitch/ovs/actionparser.go:300-310 | every conjunction comes back, although its text contains a parenthesis the ct pattern looks for |
| `ActionRoundTrip.CtDispatch` | ntlink/go/go-openvswitch/ovs/actionparser.go:188-194 | `ct(args)` comes back if and only if the arguments hold no white space |
| `ActionRoundTrip.ResubmitParses` | ntlink/go/go-openvswitch/ovs/actionparser.go:324-352 | a resubmit with non-negative port and table comes back, empty fields standing for 0 |
| `ActionRoundTrip.ResubmitNegative` | ntlink/go/go-openvswitch/ovs/action.go:459-475 | with a negative port or table the printed text is rejected by the parser |
| `ActionRoundTrip.ResubmitPortDispatch` | ntlink/go/go-openvswitch/ovs/actionparser.go:354-362 | every non-negative port comes back from `resubmit:port` |
| `ActionRoundTrip.ArrowCapture` | ntlink/go/go-openvswitch/ovs/actionparser.go:159-165 | the greedy groups capture value and field if and only if the field has no arrow with text after it |
| `ActionRoundTrip.ArrowDispatch` | ntlink/go/go-openvswitch/ovs/actionparser.go:364-378 | load and set_field come back if and only if they hold no white space, the field has no inner arrow and no earlier pattern occurs in the text |
| `ActionRoundTrip.TunnelDoesNotParse` | ntlink/go/go-openvswitch/ovs/action.go:556-558 | the text of set_tunnel is rejected by the parser for every tunnel ID |
| `ActionRoundTrip.RoundTrips` | ntlink/go/go-openvswitch/ovs/actionparser.go:171-381 | for every action that marshals: the dispatch returns an equal action from its text if and only if the action is `Parseable`, a condition on its arguments |
| `ActionText.ActionTextIs` | ntlink/go/go-openvswitch/ovs/action.go:80-558 | the exact text of every action |
| `ActionText.ActionErrors` | ntlink/go/go-openvswitch/ovs/action.go:80-558 | each error of printing an action, and exactly when an action gives it |
| `ActionText.NamesInAnyCase` | ntlink/go/go-openvswitch/ovs/actionparser.go:172-186 | the six names, and no other text, are read as their actions, in any case of their letters |
| `ActionText.IntArguments` | ntlink/go/go-openvswitch/ovs/actionparser.go:288-322 | blanks and a plus sign before the number of a port or a VLAN ID are skipped, and so is what follows it |
| `ActionText.PortArguments` | ntlink/go/go-openvswitch/ovs/actionparser.go:264-286 | a transport port is read if and only if it fits sixteen bits and has no sign, with blanks before it and anything but a digit after it |
| `ActionText.AddressArguments` | ntlink/go/go-openvswitch/ovs/actionparser.go:196-262 | an address argument goes from the first character after the blanks to the next white space; hardware addresses are taken if they parse and IP addresses if they are IPv4, and anything else is an error |
| `ActionText.ConjunctionArguments` | ntlink/go/go-openvswitch/ovs/actionparser.go:300-310 | three numbers make a conjunction if and only if the closing parenthesis follows; what comes after it is skipped |
| `ActionText.CtArguments` | ntlink/go/go-openvswitch/ovs/actionparser.go:188-194 | the arguments of `ct` come back if and only if they hold no tab, newline, form feed, carriage return or space |
| `ActionText.CtAnywhere` | ntlink/go/go-openvswitch/ovs/actionparser.go:188-194 | `ct(...)` anywhere in a text makes it a connection-tracking action, even behind the prefix of another action |
| `ActionText.ResubmitAnywhere` | ntlink/go/go-openvswitch/ovs/actionparser.go:324-352 | in a text without a prefix and without `ct(...)`, `resubmit(...)` anywhere wins over the patterns tried after it |
| `ActionText.MacForms` | ntlink/go/go-openvswitch/ovs/actionparser.go:196-228 | a hardware address of 6, 8 or 20 bytes is read with colons, dashes or dots |
| `ActionText.MacLengths` | ntlink/go/go-openvswitch/ovs/actionparser.go:196-228 | no other length is read |
| `ActionImage.FoundAround` | ntlink/go/go-openvswitch/ovs/actionparser.go:146-166 | a pattern found in a text is found in every text around it |
| `ActionImage.FreeTextOccurs` | ntlink/go/go-openvswitch/ovs/actionparser.go:188-194 | a ct, load or set_field action that the dispatch returns marshals, can be read back, and its text stands word for word in the text it was read from |
| `ActionImage.ParsedIsParseable` | ntlink/go/go-openvswitch/ovs/actionparser.go:171-381 | whatever text is read, the arguments of the action that comes out meet the condition under which printed actions come back |
| `ActionImage.ParsedMarshals` | ntlink/go/go-openvswitch/ovs/actionparser.go:171-381 | an action that was read can be printed if and only if its numbers and addresses are in the printer's range; the parser accepts more |
| `ActionImage.ParsedComesBack` | ntlink/go/go-openvswitch/ovs/actionparser.go:171-381 | an action that the dispatch returned can be printed and comes back through the dispatch if and only if its numbers and addresses are in range |
| `ActionImage.NegativeOutput` | ntlink/go/go-openvswitch/ovs/action.go:367-373 | `output:-1` is read as an output to port -1, which cannot be printed |
| `ActionImage.ReturnedExactly` | ntlink/go/go-openvswitch/ovs/actionparser.go:171-381 | an action that can be printed is returned for some text if and only if it is `Parseable` |
| `ActionImage.LongerDiffers` | ntlink/go/go-openvswitch/ovs/actionparser.go:155-165 | a text that goes on after the text of such an action, with a later closing parenthesis and no white space, is read as something else |
| `ActionParser.ScanToken` | ntlink/go/go-openvswitch/ovs/actionparser.go:82-127 | a scan always moves forward in the text |
| `ActionParser.Parser.Read` | ntlink/go/go-openvswitch/ovs/actionparser.go:48-54 | reads one character, or NUL for ever at the end |
| `ActionParser.Parser.NextToken` | ntlink/go/go-openvswitch/ovs/actionparser.go:82-127 | the scanning loop with its stack gives the specified token and leaves the reader after it with an empty stack |
| `ActionParser.Parser.Parse` | ntlink/go/go-openvswitch/ovs/actionparser.go:58-78 | the loop over actions gives the specified actions and raw texts, or the first failure; an action whose scan meets the end of its text ends the list like the end of the input |
| `ActionParser.ScanClean` | ntlink/go/go-openvswitch/ovs/actionparser.go:82-120 | a balanced token without a comma at depth 0 is taken whole, up to the comma or the end |
| `ActionParser.TokensOfJoin` | ntlink/go/go-openvswitch/ovs/actionparser.go:82-144 | cutting the comma join of such tokens gives exactly the list, without popping an empty stack |
| `ActionParser.TokensRejoin` | ntlink/go/go-openvswitch/ovs/actionparser.go:82-127 | conversely the pieces of a text that splits rejoin to it, up to one trailing comma |
| `ActionParser.TokenIsClean` | ntlink/go/go-openvswitch/ovs/actionparser.go:82-127 | every token the scanner returns is a balanced piece from the front of the text, with its commas inside parentheses |
| `ActionEnds.EndsEarly` | ntlink/go/go-openvswitch/ovs/actionparser.go:196-322 | a token makes its scan meet the end of the text if and only if it is a bare prefix: one of the eight `mod_*:` and `output:` prefixes with nothing but blanks after it, or for the verbs that read an int blanks and a sign |
| `ActionEnds.ParsedRejoins` | ntlink/go/go-openvswitch/ovs/actionparser.go:58-127 | when a text parses, its raw texts are the tokens before the first bare prefix, and they rejoin to it, up to one trailing comma, if and only if the scanner meets no bare prefix |
| `ActionEnds.MeetsBareToken` | ntlink/go/go-openvswitch/ovs/actionparser.go:58-127 | in a text that the scanner cuts to its end, it meets a bare prefix if and only if one of the tokens is bare |
| `ActionEnds.BareEndsList` | ntlink/go/go-openvswitch/ovs/actionparser.go:58-78 | a bare prefix after any list of tokens that parse ends the list: it and everything after it are dropped without an error |
| `ActionEnds.OutputEnds` | ntlink/go/go-openvswitch/ovs/actionparser.go:58-78 | `output:1,output:,drop` is read as the one action `output:1` |
| `ActionParser.ParseTokens` | ntlink/go/go-openvswitch/ovs/actionparser.go:58-127 | when every token parses, the joined text parses to the list of their actions |
| `Flows.Flow.MarshalText` | ntlink/go/go-openvswitch/ovs/flow.go:116-184 | the steps of the original give the specified text or error; the error cases keep their order |
| `Flows.Flow.AppendFields` | ntlink/go/go-openvswitch/ovs/flow.go:149-183 | the buffer grown field by field is the comma join of the flow's pieces |
| `Flows.Flow.MarshalActions` | ntlink/go/go-openvswitch/ovs/flow.go:343-376 | the texts of all actions in order, or the first error |
| `Flows.Flow.MarshalMatches` | ntlink/go/go-openvswitch/ovs/flow.go:353-376 | the texts of all matches in order, or the first error |
| `Flows.Flow.UnmarshalText` | ntlink/go/go-openvswitch/ovs/flow.go:187-329 | the loop over the pieces and the action parser leave the fields and the error of the specification, including the fields set before an error |
| `Flows.Flow.TakePiece` | ntlink/go/go-openvswitch/ovs/flow.go:210-303 | one turn of the loop updates exactly the field its key names |
| `FlowRoundTrip.SplitAtActions` | ntlink/go/go-openvswitch/ovs/flow.go:194-206 | the first `actions=` after a head without one splits off the head |
| `FlowRoundTrip.SplitOne` | ntlink/go/go-openvswitch/ovs/flow.go:194-206 | a text is a single part if and only if it holds no `actions=` |
| `FlowRoundTrip.MatchHeadPiece` | ntlink/go/go-openvswitch/ovs/flow.go:166-168 | the text of a match holds no comma and never `actions=` |
| `FlowRoundTrip.MatchPiece` | ntlink/go/go-openvswitch/ovs/flow.go:296-302 | the piece of a match appends the same match, with the same text |
| `FlowRoundTrip.PortPiece` | ntlink/go/go-openvswitch/ovs/flow.go:157-164 | every input port comes back, LOCAL included |
| `FlowRoundTrip.CookiePiece` | ntlink/go/go-openvswitch/ovs/flow.go:377-381 | every cookie comes back from its padded hexadecimal form |
| `FlowDumps.StatisticIsSkipped` | ntlink/go/go-openvswitch/ovs/flow.go:291-294 | a piece with one `=` and `duration`, `n_packets`, `n_bytes`, `hard_age` or `idle_age` as its key, with any white space around it, sets nothing and gives no error |
| `FlowDumps.StatisticsAnywhere` | ntlink/go/go-openvswitch/ovs/flow.go:207-303 | putting such pieces anywhere into the head of a text changes neither what is read nor the error |
| `FlowDumps.SpacedNumbers` | ntlink/go/go-openvswitch/ovs/flow.go:224-290 | priority, table, idle timeout and input port are read with any white space around key and number |
| `FlowDumps.LocalPort` | ntlink/go/go-openvswitch/ovs/flow.go:261-267 | the local port is -1, read from and printed as `LOCAL`; 0 is not printed |
| `FlowDumps.CookieForms` | ntlink/go/go-openvswitch/ovs/flow.go:239-249 | a cookie is read in decimal, hexadecimal and octal |
| `FlowDumps.CookieText` | ntlink/go/go-openvswitch/ovs/flow.go:174-181 | a cookie is printed with 0x and exactly sixteen hexadecimal digits, and not at all if it is 0 |
| `FlowDumps.BadNumbers` | ntlink/go/go-openvswitch/ovs/flow.go:224-290 | a number that cannot be read stops the reading with an error that names it, and leaves the fields as they were |
| `FlowDumps.TextReads` | ntlink/go/go-openvswitch/ovs/flow.go:187-328 | any text is read from the comma-separated pieces of its head, trimmed at both ends, and from what follows the first `actions=` |
| `FlowDumps.DropBesideOthers` | ntlink/go/go-openvswitch/ovs/flow.go:315-326 | reading fails for a `drop` beside other actions exactly if everything else is read and one of more than one token is `drop` in lower case |
| `FlowRoundTrip.HeadApplies` | ntlink/go/go-openvswitch/ovs/flow.go:210-303 | reading the head into the zero flow restores all fields but the actions |
| `FlowRoundTrip.FixedTextPlain` | ntlink/go/go-openvswitch/ovs/action.go:80-558 | the text of every action without free text, set_tunnel aside, is a single, balanced token without white space or `actions=` |
| `FlowRoundTrip.ActionsParse` | ntlink/go/go-openvswitch/ovs/flow.go:305-313 | the joined action texts parse to the same actions with the same raw texts |
| `FlowRoundTrip.TextComesApart` | ntlink/go/go-openvswitch/ovs/flow.go:187-208 | splitting and trimming recover the pieces of the head and the text of the actions |
| `FlowRoundTrip.ParsedHeadIsPlain` | ntlink/go/go-openvswitch/ovs/flow.go:187-303 | whatever text is read, with or without an error, the protocol it sets holds no comma and no `=`, and the flags of the ct_state and tcp_flags matches it sets come in fours and hold neither, nor outer space; only a text refused for its lack of actions sets nothing |
| `FlowRoundTrip.PlainFlowRestored` | ntlink/go/go-openvswitch/ovs/flow.go:116-329 | every flow that marshals with plain protocol, flags and actions is restored from its text: no error, same priority, protocol, input port, table, idle timeout, cookie and actions, the same matches with the same texts, same text again |
| `FlowRoundTrip.RestoredIsPlain` | ntlink/go/go-openvswitch/ovs/flow.go:187-303 | a flow that is restored has a plain protocol and plain flags |
| `FlowExact.FirstToken` | ntlink/go/go-openvswitch/ovs/actionparser.go:82-127 | a token that is read as an action and starts with the action's text is that text |
| `FlowExact.ExactTokens` | ntlink/go/go-openvswitch/ovs/flow.go:305-313 | if the joined texts, trimmed at the end, are read as the same actions, each text was a token of its own and nothing was trimmed |
| `FlowExact.RestoredIsGood` | ntlink/go/go-openvswitch/ovs/flow.go:187-329 | a flow that is restored has plain actions: each can be read back and is a balanced token without `actions=`, and the last does not end in white space |
| `FlowExact.FlowRoundTrips` | ntlink/go/go-openvswitch/ovs/flow.go:116-329 | for every flow that marshals: it is restored from its text, with the same fields, the same matches one by one and the same actions, if and only if its protocol, the flags of its matches and its actions are plain |
| `FlowExact.RestoredOrNot` | ntlink/go/go-openvswitch/ovs/flow.go:152-155 | a flow for `ip` is restored; one for `ip,tcp` is printed but not restored |
| `FlowExact.BareActionsAreLost` | ntlink/go/go-openvswitch/ovs/flow.go:305-313 | a text whose actions are a bare prefix, such as `actions=output:`, is read without an error and leaves a flow without actions, which cannot be printed |
| `ReadBack.PrintedComesBack` | ntlink/go/go-openvswitch/ovs/actionparser.go:58-127 | a printable action that comes back through the dispatch comes back through the whole parser if and only if its free text is a token of its own |
| `ReadBack.ReadActionComesBack` | ntlink/go/go-openvswitch/ovs/actionparser.go:58-127 | an action of a list that was read can be printed and comes back through the parser if and only if its numbers and addresses are in range and its free text is a token of its own |
| `ReadBack.ParenthesisedCt` | ntlink/go/go-openvswitch/ovs/actionparser.go:82-144 | `(ct(a))` is read as ct with the arguments `a)`; printed, that is `ct(a))`, on which the parser panics |
| `ReadBack.MatchMarshals` | ntlink/go/go-openvswitch/ovs/match.go:117-968 | a match can be printed if and only if its addresses and VLAN ID are valid, a condition on its fields |
| `ReadBack.ReadFlowPrints` | ntlink/go/go-openvswitch/ovs/flow.go:116-329 | a flow that was read without an error can be printed if and only if it has actions, all numbers and addresses of its actions and matches are in range, and `drop` stands alone |
| `ReadBack.ReadActionsGood` | ntlink/go/go-openvswitch/ovs/flow.go:187-329 | the actions of a flow that was read meet the condition of the flow round trip if and only if their free texts are tokens and the last does not end in white space |
| `ReadBack.ReadFlowRestored` | ntlink/go/go-openvswitch/ovs/flow.go:116-329 | a flow that was read without an error and can be printed is restored from its own text if and only if its actions are good; and it can be printed and is restored if and only if it is in range, its free texts are tokens and the last does not end in white space |
| `ReadBack.UnprintableFlow` | ntlink/go/go-openvswitch/ovs/matchparser.go:28-80 | a flow text with `nw_src=` and a text that is no address is read without an error and cannot be printed |
| `Bundles.FlowTransaction.Add` | ntlink/go/go-openvswitch/ovs/openflow.go:81-92 | a push of add directives, or nothing after an error |
| `Bundles.FlowTransaction.Delete` | ntlink/go/go-openvswitch/ovs/openflow.go:97-108 | a push of delete directives, or nothing after an error |
| `Bundles.FlowTransaction.Push` | ntlink/go/go-openvswitch/ovs/openflow.go:112-125 | the loop appends one directive for each flow up to the first error, which it stores |
| `Bundles.FlowTransaction.Commit` | ntlink/go/go-openvswitch/ovs/openflow.go:131-138 | commits, or returns the stored error |
| `Bundles.FlowTransaction.Discard` | ntlink/go/go-openvswitch/ovs/openflow.go:143-146 | drops the flows and nothing else |
| `Bundles.RunMeaning` | ntlink/go/go-openvswitch/ovs/openflow.go:59-146 | after any calls the stored error is that of the first flow ever that did not marshal, the flows are those since the last discard up to that one, and it is committed exactly when some commit came before it |
| `Bundles.AddFlowBundle` | ntlink/go/go-openvswitch/ovs/openflow.go:152-183 | ending with commit, the bundle is piped if and only if no marshalling error ever occurred, and otherwise the first error is returned; ending with nil, it is piped exactly when committed in time; what is piped has one line for each flow since the last discard, up to the first that did not marshal |
| `Bundles.WriteBuffer` | ntlink/go/go-openvswitch/ovs/openflow.go:168-175 | the buffer is one `directive flow` line for each flow, in order |
| `Bundles.DirectiveLines` | ntlink/go/go-openvswitch/ovs/openflow.go:74-175 | the line of a flow is `add ` or `delete `, its text and a newline |
| `Bundles.OneLinePerFlow` | ntlink/go/go-openvswitch/ovs/openflow.go:112-175 | without an error every flow since the last discard is kept, in call order, with its directive and text |
| `Bundles.PushIsNoOp` | ntlink/go/go-openvswitch/ovs/openflow.go:77-125 | a call of `Add` or `Delete` leaves the flows as they are if and only if an error is already stored, it brings no flow, or its first flow does not marshal |
| `Bundles.InvalidAddIsPiped` | ntlink/go/go-openvswitch/ovs/openflow.go:77-183 | after a commit, an `Add` of a valid and an invalid flow leaves the valid one in the transaction, and a caller that returns nil gets it piped |
| `LearningSwitch.Switch.Scan` | l2fwd_daniel/main.c:184-200 | one pass over the table finds both addresses and enqueues on the port of every hit, counting each |
| `LearningSwitch.Switch.Forward` | l2fwd_daniel/main.c:164-235 | one frame is sent on the destination's ports or flooded, and table and counters become those of the specification |
| `LearningSwitch.StepAgrees` | l2fwd_daniel/main.c:164-235 | one frame keeps the table a distinct non-zero prefix and an unused suffix that holds the first ingress port of every source so far, and stays inside the table |
| `LearningSwitch.TableIsFirstIngress` | l2fwd_daniel/main.c:184-235 | after every run with non-zero addresses and at most 20 sources the array, read as a map, sends each source to the ingress port of its first frame |
| `LearningSwitch.FrameIsSent` | l2fwd_daniel/main.c:184-212 | each frame is enqueued once, on the mapped port, or once on every port but its own |
| `LearningSwitch.OthersMeaning` | l2fwd_daniel/main.c:201-210 | flooding reaches every port but the ingress port, once |
| `LearningSwitch.FloodsUnknown` | l2fwd_daniel/main.c:184-210 | the switch floods exactly the frames to addresses that no earlier frame came from |
| `LearningSwitch.CounterLaw` | l2fwd_daniel/main.c:196-212 | the counter is the number of enqueued packets plus 4 - ports for each frame to an unknown address, modulo 2^32 |
| `LearningSwitch.CounterExact` | l2fwd_daniel/main.c:199-210 | the counter equals the number of enqueued packets modulo 2^32 if and only if that surplus vanishes modulo 2^32 |
| `LearningSwitch.FourPortCounter` | l2fwd_daniel/main.c:199-210 | with four ports the counter is the number of enqueued packets modulo 2^32 |
| `LearningSwitch.TwoPortsMiscount` | l2fwd_daniel/main.c:199-210 | with two ports a single flooded frame is enqueued once and counted three times |
| `ArpCache.ThirdOctetIs` | l2fwd_daniel/main.c:347-358 | the shifts pick the third of the four octets |
| `ArpCache.BelongsToOctets` | l2fwd_daniel/main.c:347-358 | the lookup accepts the target a.b.c.d if and only if c is the port number plus one, in 32 bits |
| `ArpCache.AcceptedOctets` | l2fwd_daniel/main.c:244-276 | a packet for the target a.b.c.d reaches the table if and only if c is the port number plus one, the hardware type is 1 and the protocol type is 0x0800 |
| `ArpCache.ArpTable.Refresh` | l2fwd_daniel/main.c:278-289 | the loop gives every entry of the sender the new hardware address and tells whether there was one |
| `ArpCache.ArpTable.Receive` | l2fwd_daniel/main.c:239-304 | one packet changes table and counter as specified, and a reply is due exactly for an accepted packet with operation code 1 |
| `ArpCache.StepRefines` | l2fwd_daniel/main.c:244-299 | one packet keeps the array a circular layout of a first-in, first-out cache of 100 bindings |
| `ArpCache.RunRefines` | l2fwd_daniel/main.c:244-299 | the array is that layout after every run of packets |
| `ArpCache.NoDuplicateSenders` | l2fwd_daniel/main.c:278-299 | no two IPv4 entries of the array share a sender |
| `ArpCache.TableIsLatest` | l2fwd_daniel/main.c:278-299 | every IPv4 entry holds the hardware address of the last accepted packet of its sender |
| `ArpCache.CacheIsLastEntries` | l2fwd_daniel/main.c:259-299 | the cache holds the last one hundred senders that entered it, oldest first |
| `ArpCache.NothingEvicted` | l2fwd_daniel/main.c:259-299 | with at most one hundred senders the cache holds every sender of an accepted packet and no other |
| `PortAssignment.PairPorts` | l2fwd_daniel/main.c:672-697 | the pairing loop makes an involution whose only fixed point is the last port of an odd number |
| `PortAssignment.AssignPorts` | l2fwd_daniel/main.c:699-718 | the assignment loop gives each enabled lcore the next ports up to the queue count and stays inside the configuration |
| `PortAssignment.CapacityIs` | l2fwd_daniel/main.c:699-718 | the capacity asked for is the queue count times the number of enabled lcores |
| `PortAssignment.NextLcore` | l2fwd_daniel/main.c:704-708 | the inner loop stops at the first lcore that is enabled and has room |
| `PortAssignment.SharesBounded` | l2fwd_daniel/main.c:704-716 | only enabled lcores get ports, and no more than the queue count |
| `PortAssignment.SharesCover` | l2fwd_daniel/main.c:699-718 | exactly the ports 0 to n - 1 are assigned |
| `PortAssignment.SharesDisjoint` | l2fwd_daniel/main.c:699-718 | no port is assigned twice |
| `PortAssignment.FlushPorts` | l2fwd_daniel/main.c:402-408 | the drain loop flushes the partner of each of the lcore's ports, in order |
| `PortAssignment.SharesCanFlush` | l2fwd_daniel/main.c:402-408 | every assigned port has a partner entry, so every drain loop stays inside the table |
| `PortAssignment.FlushCoverage` | l2fwd_daniel/main.c:402-408 | taken together, what the drain loops flush holds every port's transmit buffer exactly once |

## Left out

- FlowExact.FlowRoundTrips: takes it as given that the IP address of an action is a parsed IPv4 address, as its constructor makes it.
- RpcTheorems.CloseTerminates: assumes that `Receive` gives finitely many more messages once the connection is closed; a decoder error that repeats for ever without being end-of-file is not modelled.
- RpcTheorems.ShutdownProgress: is about the background goroutines; a caller that starts after the close, with a context that is never done, may wait for ever.
- RpcTheorems.AnswersAreFirst: is about fewer than 2^64 drawn IDs; after that the counter repeats.
- MatchParser.ParseChunks: text is ASCII, one character for one byte.
- LearningSwitch.Switch.Forward: asks for a free entry or a known source; past 20 sources the original writes outside its table.
- PortAssignment.AssignPorts: asks for enough enabled lcores and a queue count from 1 to 15; without them the original runs past its configuration.
- Liveness of callers before a cancellation: the listener can block, and then no response is dispatched to anybody.
- JSON encoding, sockets and `jsonrpc/conn.go`: `Send` and `Receive` are steps of the environment; messages other than echo requests carry an ID.
- IP address parsing: `net.ParseIP` and `net.ParseCIDR` are a parameter, of which the results ask only that the printed form of an address parses to the same address and is written with address characters.
- The binary, `0o` and underscore forms that newer Go versions accept for a cookie.
- Unicode white space and case folding: trimming and `ToLower` are those of ASCII.
- `math.Log2` and `math.Floor` in floating point: the model uses the integer logarithm.
- Go's own libraries: the parts of `strings`, `strconv`, `regexp` and `fmt` that the code calls are written out as functions; their source is not part of this model.
- Texts of errors: an error is a value that says which check failed, without its message.
- An unmatched closing parenthesis: the original panics in its stack, and the model gives a result of its own for that; nothing more is claimed.
- The text of a `MatchFlow`: a bundle sees a flow or match flow through the result of its `MarshalText`.
- The process that a bundle is piped to, and its errors.
- The decoding of frames into addresses and ARP fields, the ARP reply frame, mbuf ownership, the printed table and the `vlan` field, which nothing writes.
- `l2fwd_arp_reply` is not called by the main loop of this version; it is modelled as a function of its own.
- Races of several lcores on the shared tables: one frame is one step.
- DPDK initialisation, link polling, the timers of the main loop, the Kodo coding calls, the POX controller and the Mininet topologies.
- `portstats.go`, `table.go`, `flowstats.go`, `matchflow.go`, `ovsnl`, the command-line plumbing of `client.go` and `vswitch.go`, and all `GoString` methods: easy members or wrappers.
