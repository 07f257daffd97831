# Distance-vector routing node, modelled in Dafny

The system is a small RIP-style routing lab. Every routing node knows a static topology
(`id1 id2 cost` lines) and an address list (`id host port` lines). It keeps a distance table:
row 0 is its own distance vector, and rows 1..k hold the vector each direct neighbour last
advertised. Nodes exchange `RIPIND <id> <vector>` advertisements over a datagram "unicast"
layer that frames every payload as `UPDREQPDU <len> <data>`. A manager (id 0) queries and
changes link costs with `RIPGET`, `RIPSET` and `RIPRQT`. The node answers with `RIPNTF` and
`RIPRSP`.

The model covers four pieces:

- the node's constructor;
- the dispatch of a received PDU on its tag, and the four handlers;
- relaxation (asynchronous Bellman-Ford over the neighbours' rows) and propagation of row 0;
- the colon-separated vector codec, the send side of the unicast layer, and the two
  configuration loaders.

Every event is a pure function from the node state to a new state plus the `UPDataReq(dest,
data)` calls it makes, in order (`Reaction`). A timer tick is one more event (`Step(n, Tick)`),
which propagates row 0.

Modules:

- `Wrappers`: `Option` and `Result`, which stand for the source's `null` returns and thrown
  exceptions.
- `JavaText`: the Java library behaviour the code depends on:
  - `split` with one delimiter, with and without the limit 2, and `split("\\s+")`;
  - `trim().isEmpty()`;
  - decimal printing, `Short.parseShort` and `Integer.parseInt` with their range checks;
  - wrapping `int` addition.
- `Utils`: `loadConfiguration` and `loadTopology` as folds over the lines of a file.
- `Unicast`: the id -> endpoint directory, construction, and `UPDataReq`'s lookup, framing and
  size check.
- `RipCodec`: `formatVector` / `parseVector` and the texts of `RIPIND`, `RIPNTF` and `RIPRSP`.
- `RipConfig`, `RipState`: the constants and the node state. `RipState` also holds the
  sorted id -> column bijection, the neighbour -> row mapping and the initial table.
- `DistanceVector`: relaxation (`recalculateDistanceVector`) and propagation.
- `RipNode`: construction, `UPDataInd`, the handlers, and the properties of whole events.

Java's `short` and `int` are modelled as their ranges (`InShort`, `InInt`). Parsing fails
outside them, and the `cost + entry` sum of relaxation wraps modulo 2^32 (`AddInt32`).

The iteration order of the neighbour `HashMap` is a parameter `order`: any duplicate-free
listing of the neighbour ids. The same map is walked when rows are assigned, when relaxing and
when propagating, and `put` on an existing key does not reorder it. So one `order` serves all
three, and the neighbour `order[i]` owns row `i + 1`.

Three behaviours of the code are worth knowing before reading the contracts:

- Row 0 does not always hold 0 in the node's own column. The constructor writes the 0 and
  then the neighbour costs (src/projetoredes/rip/RIPNode.java:80-88), so a topology line
  linking a node to itself (`1 1 5`) leaves that cost in the own column until the first
  relaxation. `InitialRow` states this case; `Relax` restores `SelfZero`, and
  `StepKeepsSelfZero` shows that every later event keeps it.
- The node does not bound costs. `RIPSET` stores any `int` cost, and `RIPIND` stores any
  vector of `int`s. The minimality of relaxation is therefore proved under `WellFormedCosts`
  (every link and every advertised cell is at least -1). Without that hypothesis the fold
  depends on the iteration order. Even with it, `cost + entry` can wrap: a link of
  2000000000 and a cell of 2000000000 give the offer -294967296, and relaxation keeps that
  wrapped value as the minimum (`OfferIsRoute`).
- Negative ids pass the constructor's check (`id != MANAGER_ID && id <= MAX_NODES`), and the
  model accepts them too (`IdAccepted`).

## Model

| member | source | states |
|---|---|---|
| JavaText.ShortReading | src/projetoredes/utils/Utils.java:28 | Short.parseShort of the text of any integer returns that integer when it is a `short`, and throws for every value outside the `short` range |
| JavaText.Int32Reading | src/projetoredes/utils/Utils.java:30 | Integer.parseInt of the text of any integer returns that integer when it is an `int`, and throws for every value outside the `int` range |
| JavaText.ParsersAgree | src/projetoredes/utils/Utils.java:28-30 | both parsers throw on the empty string and on a lone sign, and Integer.parseInt reads every text Short.parseShort accepts as the same value |
| JavaText.ParseDecimal | src/projetoredes/utils/Utils.java:28-30 | a text that reads as a number is non-empty with only digits after its first character, and reads as a negative value only when it starts with `-` |
| JavaText.IntStr | src/projetoredes/rip/RIPNode.java:317 | the printed text of an integer is non-empty ASCII of digits and minus signs |
| JavaText.AddInt32 | src/projetoredes/rip/RIPNode.java:281 | `int` addition gives an `int` congruent to the exact sum modulo 2^32, and the exact sum whenever it fits |
| JavaText.DecimalRoundTrip | src/projetoredes/rip/RIPNode.java:329 | the `%d` / String.valueOf text of any integer reads back as that integer |
| JavaText.ShortRoundTrip | src/projetoredes/rip/RIPNode.java:148-149 | a printed `short` is read back by Short.parseShort unchanged |
| JavaText.Int32RoundTrip | src/projetoredes/rip/RIPNode.java:173 | a printed `int` is read back by Integer.parseInt unchanged |
| JavaText.IntStrInjective | src/projetoredes/rip/RIPNode.java:329 | distinct integers print as distinct texts |
| JavaText.Split | src/projetoredes/rip/RIPNode.java:355 | `split(c)` gives pieces that hold no `c`; the whole string when `c` does not occur; and otherwise no trailing empty piece |
| JavaText.SplitOnce | src/projetoredes/rip/RIPNode.java:107 | `split(c, 2)` gives two pieces exactly when `c` occurs, the first holds no `c`, and the pieces glued with `c` are the string |
| JavaText.SplitWhitespace | src/projetoredes/utils/Utils.java:26 | `split("\\s+")` gives fields without white space, all non-empty but a leading one, and a non-empty first field when the line starts with a non-space |
| JavaText.SplitWhitespaceOfJoin | src/projetoredes/utils/Utils.java:54 | words joined with single spaces split back into exactly those words |
| JavaText.SplitOfJoin | src/projetoredes/rip/RIPNode.java:348-358 | `split(c)` recovers the pieces joined with `c` when no piece holds `c` and the last piece is not empty |
| JavaText.SplitOnceAt | src/projetoredes/rip/RIPNode.java:107 | `split(" ", 2)` of `a + " " + b` is `[a, b]` when `a` has no space, whatever `b` holds |
| JavaText.SplitOnceJoin | src/projetoredes/rip/RIPNode.java:212 | `split(c, 2)` of joined pieces separates the first piece from the rest joined |
| Utils.ConfigurationConcat | src/projetoredes/utils/Utils.java:21-35 | lines are read independently and in file order: the load of `a + b` is the load of `a` followed by the load of `b`, and fails if either fails |
| Utils.SingleAddressLine | src/projetoredes/utils/Utils.java:22-34 | a blank or `#` line, or one without exactly three fields, adds nothing; a three-field line adds `UCSAP(id, host, port)` from its fields, or fails exactly when the id or port is not numeric |
| Utils.LoadConfiguration | src/projetoredes/utils/Utils.java:14-41 | a loaded address list has at most one entry per line, each with a `short` id and an `int` port |
| Utils.ConfigurationFailsIff | src/projetoredes/utils/Utils.java:36-38 | the address load fails exactly when some three-field line has a non-numeric id or port |
| Utils.AddLink | src/projetoredes/utils/Utils.java:60-64 | one topology line adds both ends as keys and the cost in both directions, leaving every other link as it was and adding none |
| Utils.LoadTopology | src/projetoredes/utils/Utils.java:43-75 | a malformed last line makes the whole load null, and every key of a loaded topology is a `short` |
| Utils.TopologySymmetric | src/projetoredes/utils/Utils.java:56-64 | a loaded topology is symmetric with equal costs, every neighbour is a key, ids are `short`s and costs `int`s |
| Utils.TopologyKeys | src/projetoredes/utils/Utils.java:60-61 | the keys of a loaded topology are exactly the ids named on its valid lines |
| Utils.TopologyLastWins | src/projetoredes/utils/Utils.java:63-64 | a link exists exactly when some line joins its ends, and its cost is the one on the last such line, in either direction |
| Utils.TopologyFailsIff | src/projetoredes/utils/Utils.java:54-72 | the topology load fails exactly when some non-blank, non-comment line lacks three fields or has a non-numeric one |
| Unicast.DirectoryLastWins | src/projetoredes/unicast/UnicastProtocol.java:30-31 | the directory holds exactly the listed ids, each mapped to its last entry in the list |
| Unicast.Directory | src/projetoredes/unicast/UnicastProtocol.java:30-31 | every directory entry is stored under its own id and comes from the list |
| Unicast.Create | src/projetoredes/unicast/UnicastProtocol.java:24-44 | construction succeeds exactly when the user is present, the list loads, the sockets bind and the own id is listed, and it then holds the directory of the list; it fails with UnknownSelf exactly when the user is present, the list loads, the binding step passes (it always passes for an empty list) and the own id is not listed |
| Unicast.DataReq | src/projetoredes/unicast/UnicastProtocol.java:48-73 | a send succeeds exactly when the destination is known, the frame has at most 512 bytes and the socket send succeeds; exactly then one datagram with the frame goes to the destination's host and port |
| Unicast.FrameDecodes | src/projetoredes/unicast/UnicastProtocol.java:56 | the frame splits into the tag, the payload's length in decimal, and the payload itself |
| Unicast.FrameInjective | src/projetoredes/unicast/UnicastProtocol.java:56 | different payloads give different frames |
| Unicast.Frame | src/projetoredes/unicast/UnicastProtocol.java:56 | the frame is 11 characters plus the length field longer than the payload, and ends with the payload |
| Unicast.FrameFits | src/projetoredes/unicast/UnicastProtocol.java:56-62 | the 512-byte limit admits exactly the payloads of at most 498 characters |
| RipCodec.ParseAll | src/projetoredes/rip/RIPNode.java:354-358 | parsing the pieces gives one `int` per piece or fails as a whole |
| RipCodec.FormatVector | src/projetoredes/rip/RIPNode.java:348-352 | the empty vector formats to the empty text and a one-cell vector to its cell's decimal text |
| RipCodec.ParseVector | src/projetoredes/rip/RIPNode.java:354-358 | the empty text is refused, a text without `:` reads as the one-cell vector of its number, and every parsed cell is an `int` |
| RipCodec.VectorRoundTrip | src/projetoredes/rip/RIPNode.java:348-358 | `parseVector(formatVector(v)) == v` for every non-empty vector of `int`s, INFINITY cells included |
| RipCodec.EmptyVectorDoesNotParse | src/projetoredes/rip/RIPNode.java:348-358 | the empty vector formats to text that does not parse back |
| RipCodec.FormatVectorText | src/projetoredes/rip/RIPNode.java:348-352 | a formatted vector is ASCII, has no space, and is non-empty for a non-empty vector |
| RipCodec.IndPdu | src/projetoredes/rip/RIPNode.java:317 | the first word of an advertisement is `RIPIND`, so the receiver dispatches it to its RIPIND handler |
| RipCodec.NtfPdu | src/projetoredes/rip/RIPNode.java:329 | the first word of a notification is `RIPNTF` |
| RipCodec.RspPdu | src/projetoredes/rip/RIPNode.java:333-345 | the first word of a response is `RIPRSP` |
| RipCodec.IndDecodes | src/projetoredes/rip/RIPNode.java:317 | an advertisement splits into its tag, the sender id and the vector text, which parse back to the sender and the vector |
| RipCodec.NtfDecodes | src/projetoredes/rip/RIPNode.java:328-331 | a notification splits into its tag and three fields that read back as A, B and the cost |
| RipCodec.RspFields | src/projetoredes/rip/RIPNode.java:333-345 | a response splits at spaces into the tag, the id and one field per row, in table order |
| RipCodec.RspDecodes | src/projetoredes/rip/RIPNode.java:333-345 | each row field of a response parses back to its row, and the id field to the node id |
| RipCodec.PdusAreAscii | src/projetoredes/rip/RIPNode.java:316-345 | every RIPIND, RIPNTF and RIPRSP text is ASCII |
| RipState.SortedIds | src/projetoredes/rip/RIPNode.java:58-59 | the sorted ids are strictly increasing and list every topology id exactly once |
| RipState.Column | src/projetoredes/rip/RIPNode.java:60-64 | the column of an id is the position holding that id |
| RipState.RowOf | src/projetoredes/rip/RIPNode.java:75-78 | a neighbour's row is in 1..k and is the row its iteration position gives it |
| RipState.ColumnBijection | src/projetoredes/rip/RIPNode.java:58-64 | there is one column per participant, columns follow the ascending id order, and ids and columns are in bijection |
| RipState.RowsDistinct | src/projetoredes/rip/RIPNode.java:74-78 | distinct neighbours own distinct rows, and the neighbour in iteration position i owns row i + 1, so row 0 is never a neighbour's |
| RipState.Seed | src/projetoredes/rip/RIPNode.java:54-88 | the constructed state has `short` ids, `int` costs and cells, one column per participant and one row per neighbour plus row 0 |
| RipState.InitialShape | src/projetoredes/rip/RIPNode.java:66-72 | the initial table has neighbours + 1 rows of numNodes cells, and every neighbour row is all INFINITY |
| RipState.InitialRow | src/projetoredes/rip/RIPNode.java:80-88 | row 0 starts with each link cost in its neighbour's column, 0 in the own column unless a line links the node to itself, and INFINITY in every other column |
| RipState.SeedDeadLinksCleared | src/projetoredes/rip/RIPNode.java:69-72 | a new node has no route in any neighbour row, so every dead link's row is all INFINITY |
| DistanceVector.Offer | src/projetoredes/rip/RIPNode.java:272-281 | a neighbour makes an offer for column j exactly when its link is live and its advertised cell is not INFINITY, and the offer is an `int` |
| DistanceVector.OffersByRow | src/projetoredes/rip/RIPNode.java:271-282 | the offer in iteration position t is read from table row t + 1: nothing when the link or the cell is INFINITY, and otherwise their `int` sum |
| DistanceVector.FoldMin | src/projetoredes/rip/RIPNode.java:268-287 | the folded minCost is INFINITY or one of the offers |
| DistanceVector.FoldMinIsMinimum | src/projetoredes/rip/RIPNode.java:268-287 | when no offer is -1, the fold is INFINITY exactly when nothing is offered, and otherwise at most every offer |
| DistanceVector.RelaxedRow | src/projetoredes/rip/RIPNode.java:257-294 | the relaxed vector has numNodes `int` cells and 0 in the node's own column |
| DistanceVector.Relax | src/projetoredes/rip/RIPNode.java:252-294 | relaxation rewrites row 0 alone, restores the own column to 0, and keeps every neighbour row, link cost and mapping |
| DistanceVector.OfferIsRoute | src/projetoredes/rip/RIPNode.java:280-281 | with non-negative costs and cells, an offer is never the INFINITY sentinel; it is the exact sum whenever that sum fits an `int`, and otherwise the sum less 2^32, a negative value below -1 |
| DistanceVector.RelaxedIsShortest | src/projetoredes/rip/RIPNode.java:268-293 | with well-formed costs, every other column becomes INFINITY exactly when no live neighbour knows a route, and otherwise the least offer, which some neighbour makes (offers are wrapped `int` sums) |
| DistanceVector.RelaxedRowFrame | src/projetoredes/rip/RIPNode.java:270-287 | the relaxed vector depends only on the link costs and the neighbour rows, not on the old row 0 |
| DistanceVector.RelaxIdempotent | src/projetoredes/rip/RIPNode.java:252-300 | a second relaxation with no event in between changes nothing and sends nothing |
| DistanceVector.SendToLive | src/projetoredes/rip/RIPNode.java:319-324 | at most one request per listed neighbour, each carrying the PDU to a listed neighbour whose cost is not INFINITY |
| DistanceVector.Propagate | src/projetoredes/rip/RIPNode.java:316-325 | at most one advertisement per neighbour, each one `RIPIND id formatVector(row 0)` to a live neighbour |
| DistanceVector.SendToLiveTargets | src/projetoredes/rip/RIPNode.java:319-324 | the requests go to exactly the listed neighbours whose cost is not INFINITY, without repeats |
| DistanceVector.PropagationTargets | src/projetoredes/rip/RIPNode.java:316-325 | propagation sends `RIPIND id formatVector(row 0)` to exactly the live neighbours, once each |
| DistanceVector.Recalculate | src/projetoredes/rip/RIPNode.java:252-300 | after relaxation the state keeps its shape and holds 0 in the own column |
| DistanceVector.RecalculateReports | src/projetoredes/rip/RIPNode.java:289-299 | something is sent only when some cell of row 0 changed, and then the new row goes to exactly the live neighbours |
| DistanceVector.RecalculateDistanceVector | src/projetoredes/rip/RIPNode.java:252-296 | the column loop computes the relaxed vector, and flags a change exactly when the new row 0 differs from the old one |
| DistanceVector.ColumnMinimum | src/projetoredes/rip/RIPNode.java:268-287 | the neighbour loop for one column computes the fold of the offers in iteration order |
| DistanceVector.ConsiderNeighbour | src/projetoredes/rip/RIPNode.java:272-286 | one neighbour leaves minCost alone when it offers nothing, and otherwise replaces it when it is INFINITY or the offer is strictly smaller |
| RipNode.Init | src/projetoredes/rip/RIPNode.java:40-103 | construction succeeds exactly when the id passes the check, the topology loads and names the node, and the transport comes up; it fails InvalidId or TopologyUnavailable in those cases; a started node is well formed, has no live row for a dead link, and advertises its vector first |
| RipNode.InitialState | src/projetoredes/rip/RIPNode.java:66-102 | a started node has the topology's links and one column per participant, its first advertisement goes to exactly the neighbours whose configured cost is not INFINITY, and row 0 holds the link costs |
| RipNode.ParseInd | src/projetoredes/rip/RIPNode.java:212-227 | an advertisement payload that reads yields a vector of `int`s |
| RipNode.ParseGet | src/projetoredes/rip/RIPNode.java:147-149 | a RIPGET payload reads as two `short`s, and one with fewer than two fields is refused |
| RipNode.ParseSet | src/projetoredes/rip/RIPNode.java:170-173 | a RIPSET payload reads as two `short`s and an `int`, and one with fewer than three fields is refused |
| RipNode.GetDecodes | src/projetoredes/rip/RIPNode.java:147-149 | the RIPGET payload `A B` reads back as A and B |
| RipNode.SetDecodes | src/projetoredes/rip/RIPNode.java:170-173 | the RIPSET payload `A B cost` reads back as A, B and the cost |
| RipNode.OnGet | src/projetoredes/rip/RIPNode.java:141-159 | RIPGET never changes the node, and it sends one reply exactly when it is from the manager, reads as two `short`s and names this node as A |
| RipNode.ApplySet | src/projetoredes/rip/RIPNode.java:186-195 | an accepted RIPSET changes only B's link cost, keeps the key set, and replaces B's row with INFINITY when the new cost is INFINITY and leaves it otherwise |
| RipNode.OnSet | src/projetoredes/rip/RIPNode.java:164-202 | RIPSET keeps the node well formed |
| RipNode.AcceptVector | src/projetoredes/rip/RIPNode.java:233-235 | an accepted vector overwrites exactly the sender's row |
| RipNode.OnInd | src/projetoredes/rip/RIPNode.java:206-239 | RIPIND keeps the node well formed |
| RipNode.OnRqt | src/projetoredes/rip/RIPNode.java:242-249 | RIPRQT never changes the node and sends at most one reply |
| RipNode.Dispatch | src/projetoredes/rip/RIPNode.java:106-135 | any received data leaves the node well formed |
| RipNode.Step | src/projetoredes/rip/RIPNode.java:303-313 | a timer tick or a received PDU leaves the node well formed; `StepKeepsSelfZero` and `StepKeepsDeadLinksCleared` state the table invariants every event keeps |
| RipNode.DispatchRoutes | src/projetoredes/rip/RIPNode.java:106-131 | `TAG payload` reaches TAG's handler with exactly that payload, a bare tag reaches it with the empty payload, and an unknown tag changes nothing |
| RipNode.DispatchCases | src/projetoredes/rip/RIPNode.java:106-131 | every received text is handled by one of the four handlers on the text after its tag, or dropped |
| RipNode.NonManagerDropped | src/projetoredes/rip/RIPNode.java:141-249 | RIPGET, RIPSET and RIPRQT from anyone but the manager change nothing and send nothing |
| RipNode.GetReply | src/projetoredes/rip/RIPNode.java:141-159 | RIPGET `self B` from the manager is answered with `RIPNTF self B cost`, the cost being the link cost or INFINITY for a non-neighbour |
| RipNode.GetDropConditions | src/projetoredes/rip/RIPNode.java:141-158 | RIPGET changes nothing and sends nothing unless it is from the manager, reads as two `short`s and names this node as A; an accepted one is answered with `RIPNTF self B cost` |
| RipNode.GetForOtherDropped | src/projetoredes/rip/RIPNode.java:151-154 | a RIPGET from the manager that names another node as A gets no reply |
| RipNode.SetDropConditions | src/projetoredes/rip/RIPNode.java:164-184 | RIPSET changes nothing and sends nothing unless it is from the manager, names this node as A and a static neighbour as B; an accepted one always answers |
| RipNode.SetEffect | src/projetoredes/rip/RIPNode.java:186-201 | an accepted RIPSET sets B's cost, wipes B's row for INFINITY, relaxes, and ends with `RIPNTF A B cost` to the manager after any advertisements |
| RipNode.IndDropConditions | src/projetoredes/rip/RIPNode.java:206-231 | RIPIND changes nothing and sends nothing unless it is from a live neighbour that names itself as sender and carries numNodes cells |
| RipNode.IndEffect | src/projetoredes/rip/RIPNode.java:233-238 | an accepted RIPIND replaces the sender's row with the vector, keeps every other neighbour row and the link costs, and relaxes |
| RipNode.IndRepeatIsQuiet | src/projetoredes/rip/RIPNode.java:227-238 | a node already relaxed that receives the same vector again changes nothing and sends nothing |
| RipNode.IndPayloadDecodes | src/projetoredes/rip/RIPNode.java:212-227 | the advertisement payload reads back as its sender and vector |
| RipNode.NeighbourAcceptsAdvert | src/projetoredes/rip/RIPNode.java:206-239 | the advertisement one node sends lands unchanged in its row at a neighbour whose link back is live |
| RipNode.RqtReply | src/projetoredes/rip/RIPNode.java:242-249 | RIPRQT from the manager is answered with `RIPRSP self` followed by every row in table order, each of which reads back exactly |
| RipNode.PropagateAscii | src/projetoredes/rip/RIPNode.java:316-324 | advertisements are ASCII |
| RipNode.RecalculateAscii | src/projetoredes/rip/RIPNode.java:296-299 | what a relaxation sends is ASCII |
| RipNode.GetAscii | src/projetoredes/rip/RIPNode.java:157-158 | the RIPGET reply is ASCII |
| RipNode.SetAscii | src/projetoredes/rip/RIPNode.java:198-201 | what a RIPSET sends is ASCII |
| RipNode.IndAscii | src/projetoredes/rip/RIPNode.java:238 | what a RIPIND sends is ASCII |
| RipNode.RqtAscii | src/projetoredes/rip/RIPNode.java:248 | the RIPRQT reply is ASCII |
| RipNode.OutputsAscii | src/projetoredes/unicast/UnicastProtocol.java:56-57 | every payload a node hands to the transport is ASCII, so the frame's character count is its byte count |
| RipNode.RecalculateKeepsDeadLinksCleared | src/projetoredes/rip/RIPNode.java:252-294 | relaxation keeps every dead link's row all INFINITY |
| RipNode.ApplySetKeepsDeadLinksCleared | src/projetoredes/rip/RIPNode.java:190-195 | setting a cost keeps every dead link's row all INFINITY |
| RipNode.AcceptVectorKeepsDeadLinksCleared | src/projetoredes/rip/RIPNode.java:221-235 | storing a live neighbour's vector keeps every dead link's row all INFINITY |
| RipNode.SetKeepsDeadLinksCleared | src/projetoredes/rip/RIPNode.java:164-202 | RIPSET keeps every dead link's row all INFINITY |
| RipNode.IndKeepsDeadLinksCleared | src/projetoredes/rip/RIPNode.java:206-239 | RIPIND keeps every dead link's row all INFINITY |
| RipNode.StepKeepsDeadLinksCleared | src/projetoredes/rip/RIPNode.java:106-135 | through every event, a neighbour whose link is INFINITY keeps an all-INFINITY row |
| RipNode.StepKeepsSelfZero | src/projetoredes/rip/RIPNode.java:106-135 | through every event, row 0 keeps 0 in the node's own column once it holds it |

## Left out

- Sockets, DNS and the network. `InetAddress.getByName` and `socket.send` are the parameter
  `ioSucceeds` of `DataReq`. Binding the sockets at construction is the parameter
  `socketsBind` of `Create`. That covers the bind of every listed port at
  src/projetoredes/unicast/UnicastProtocol.java:32 and the second bind of the own port at line
  41, which in practice clashes with the first; the model does not decide which bind fails.
- File reading. A configuration file is its sequence of lines; an unreadable file is not
  modelled.
- The timer, its thread and `synchronized`. A tick is the event `Tick`, and events are handled
  one at a time; races between the timer and the receive path are not modelled.
- The receive loop and unframing, which are not part of this model. `FrameDecodes` shows that
  the frame can be read back unambiguously.
- `RIPManager`, `RoutingProtocolManagementInterface`, `NodeLauncher`, `RoutingManagementApp` and
  `SimpleUnicastApp`: the manager side, console loops and argument parsing are not part of
  this model.
- Logging and the texts of exceptions. Every exception inside a handler is modelled as the PDU
  being dropped: the state is unchanged and nothing is sent. A handler that throws after
  sending (none does) would differ.
- The `getBytes()` charset. `DataReq` requires an ASCII payload, so characters and bytes
  coincide; `OutputsAscii` shows that every payload a node sends is ASCII, under the locale
  assumption of the next line.
- RipCodec.NtfPdu: `String.format("%d", ...)` writes the digits of the default locale; the
  model prints ASCII digits, so it assumes a default locale with ASCII digits.
  `PdusAreAscii`, `OutputsAscii` and `NtfDecodes` rest on that assumption.
- Unicast.Directory: `UCSAP.id()` is an `int` (src/projetoredes/unicast/UCSAP.java:5), and
  as written src/projetoredes/unicast/UnicastProtocol.java:31-32 puts it where the maps
  expect a `Short`, which Java does not box implicitly. The model keys the directory by the
  numeric id, which assumes the intended `(short)` narrowing; the ids it receives already
  fit a `short` because `loadConfiguration` parses them with Short.parseShort.
- JavaText.ParseShort, JavaText.ParseInt32: digits other than ASCII `0`-`9`, which Java also
  accepts, are treated as malformed.
- `close()` and the cancelling of the timer.
- DistanceVector.RelaxedIsShortest: proved only under `WellFormedCosts` (links and advertised
  cells at least -1). With other negative values the fold depends on the iteration order.
  The minimum is taken over the wrapped `int` sums, so with large costs it can be negative
  and is then not the length of any route.
- RipCodec.VectorRoundTrip: requires a non-empty vector, because the empty vector formats to
  "" and `parseVector("")` throws (`EmptyVectorDoesNotParse`). The node never formats an empty
  vector, since its own id is a column.
- RipNode.Init: requires `order` to list the neighbours of a topology that loads and names the
  node. This is the abstraction of the `HashMap` iteration order, not a demand of the source.
