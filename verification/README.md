# liburx, modelled in Dafny

liburx drives a Universal Robots arm over RTDE, the Real-Time Data Exchange protocol of Universal
Robots' RTDE Guide (article 22229). This project models its two halves and proves what they promise.

**The robot protocol.** `urx::Robot` sends numbered commands and reads telemetry; a program on the
controller acts on the commands and answers inverse-kinematics requests. The whole system is one step
machine: any number of client threads, the receiver thread, one mutex, two FIFO wires, the script's main
loop and its inverse-kinematics thread. Vectors are copied element by element, frames are parsed and
published cell by cell, and the script reads and writes its registers one by one. One step each are a
critical section of the script's, and the numbering and sending of `stop`, which runs alone among the
senders.

**The recipe codec.** `RTDE_Recipe` and `RTDE_Handler` lay fields out in a data package, negotiate them
as comma-separated text that two different parsers then read, and store and parse big-endian values in
mutable buffers. These are classes and array loops, proved against specification functions, about which
the round trips and the exactness results are proved.

The regulator of `tools/robot_speed.cpp` is a small third part.

## What comes out

- **The handshake of `calculate_q_ref` is sound if and only if at most one thread ever calls it**
  (`HandshakeSoundIff`, for any controller whose inverse kinematics tells two poses apart). With one
  caller a matched tag means "these joint angles answer my pose" in every interleaving, even though the
  script reads registers one by one while further frames land and the robot publishes in the middle of
  being written. With two callers there is a run, built in `TwoControlsUnsound`, in which a caller takes
  the other's answer for its own: the solver has written the second pose's angles over the first's, but
  not yet its number, when the registers are sampled. Waiting for acknowledgements does not help.
- **The script acts on whole commands if and only if the callers let at most one command go
  unacknowledged** (`CommandsWholeIff`). The caller can check that before each call: every command sent is
  numbered no higher than the sequence number the last state came with. `urx::Robot` itself does not, and
  with two commands on their way a frame that lands while the script reads can hand the speed thread one
  element of one command and five of the next (`SpeedVectorTorn`). A stop needs no waiting.
- **The first command can be lost, no later one is hidden.** The registration frame and the first command
  are both numbered 1. `FirstCommandActedOnIff` says which frame an action under number 1 is on;
  `FirstCommandDoomedIff` says that when the first command is begun it is lost in every continuation
  exactly if the script is done with the registration frame, which a client that already sees number 1
  acknowledged can tell; `NoLaterCommandHidden` covers the rest.
- **Sequence numbers increase exactly up to the 2^32nd call**, where they wrap (`FramesIncreaseIff`). The
  machine makes no call that would wrap.
- **The odd reply scanner is right about replies of type names**: it steps over a character after each
  item and never sees the last item's last letter, yet it accepts such a reply exactly when it holds no
  NOT_FOUND or IN_USE, and a reply registers exactly the recipe whose types it names in order.
- **`clear_fields` keeps the byte count**, so fields tile from the count at the last clear, not from 0.
- **`trim` is order-dependent**: it uncovers a text exactly if blanks are outermost and ETX characters next
  to it, on both sides (`TrimIff`), and is therefore not idempotent.
- A failed send, and `stop`, leave the command word standing; the next call overwrites it.

## How it fits together

`Cells`, `CommandLog`, `Protocol` define the variables, the atomic meaning of the command calls and the
step machine. `SenderInvariant`, `SnapshotInvariant`, `ChainInvariant`, `ScriptInvariant`,
`ControllerInvariant`, `LifecycleInvariant`, `HandshakeInvariant` and `PacingInvariant` are its inductive
invariants, one concern each; `Guarantees`,
`Handshake`, `Pacing` and `FirstCommand` turn them into statements about every reachable state.
`Passages` shows what an operation's steps add up to when nothing interferes, `Witnesses` and `Handshake`
use that to build runs, and `Robot` is the class itself, method by method, proved against the same
`CommandLog` functions.

`Endian`, `Text`, `Magic`, `Header`, `Layout` and `Negotiation` hold the codec's specification functions
and their laws (and `Header` the frame-building methods), `ReceiveBuffer` and `ReplyBytes` take the replies
from their bytes on, `Recipe` and `Handler` are the classes.
`RobotFrames` joins the halves: the input frame's bytes carry exactly the cells the machine sends.

## Assumptions

- One whole frame a receive; a frame is applied to the controller's registers, or sampled from them,
  atomically; input registers are last-writer-wins.
- The registration frame is in the registers when the script starts, and output register 1 starts at 0.
- `stop` runs alone among the command senders, since it takes no lock. Any thread may go on afterwards.
- How many commands go unacknowledged is up to the callers: the parameter `window`. A window of 2^32 or more
  never holds a call back (`WideWindowNeverBinds`), so everything stated without a condition on it holds of
  callers that do not wait at all.
- Parsing, publishing and snapshot copying may go cell by cell in any order, which includes the
  program's own. Words are copied atomically.
- A wait may fail at any time: timeouts are nondeterministic and nothing is claimed about progress.
- A recipe asks for at least one field, an output recipe is registered before data arrives, registered
  variables exist and do not overlap, and fields fit the 2044 payload bytes of a frame.
- A field list must not fill a request frame to the last byte: the source's guard lets that length
  through and then writes the terminator one past the end. Longer and shorter lists are covered.
- Doubles are opaque 64-bit words; the host is little-endian.

## Model

| member | source | states |
|---|---|---|
| Handshake.HandshakeSoundIff | src/robot.cpp:315-374 | over all runs, every answer a waiting thread accepts is its own pose's exactly when at most one thread may call calculate_q_ref |
| Handshake.SingleControlSound | scripts/tcp_pose.script:69-164 | with one control thread, in every interleaving of client, receiver, wires, main loop and solver, an accepted answer is the inverse kinematics of the pose sent under that number |
| Handshake.TwoControlsUnsound | scripts/tcp_pose.script:85-95 | with two control threads, however long the second waits for acknowledgements, a run exists in which the first takes the second's answer for its own |
| Pacing.CommandsWholeIff | scripts/tcp_pose.script:122-160 | over all runs, every speed and pose action is on the whole command of one sent frame (the one its number came from, or the first command's if that was the registration frame) exactly when the callers let at most one command go unacknowledged |
| Pacing.PacedIsWhole | scripts/tcp_pose.script:133-160 | one unacknowledged command at most, and every action is whole, whatever frames, failed sends and stops come in between |
| PacingInvariant.PacedStep | src/robot.cpp:376-422 | each step keeps: only a stop follows an unacknowledged command, and with the same vectors |
| PacingInvariant.WholeStep | scripts/tcp_pose.script:115-160 | each step keeps: the words read so far are those of the frame the command was read from |
| Handshake.AnswerStaysReadable | src/robot.cpp:218-229 | from a successful wait until the next calculate_q_ref the published joint reference stays that pose's answer, whatever else happens |
| Handshake.AnswerArrives | src/robot.cpp:315-374 | a calculate_q_ref with nothing else going on comes back with its own pose's angles published under its number |
| HandshakeInvariant.HandshakeStep | scripts/tcp_pose.script:69-164 | each step of any thread keeps: nothing tagged with the pending request's number or later, anywhere from the script's variables to the published state, belongs to another pose |
| HandshakeInvariant.HandshakeSolverStep | scripts/tcp_pose.script:85-100 | writing six angles one by one and the tag last never exposes a tag with another pose's angles |
| HandshakeInvariant.PublishedAnswer | src/robot.cpp:218-229 | outside the receiver's critical section a published tag that reached the request's number comes with the request's whole answer |
| Guarantees.SequenceNumberChain | scripts/tcp_pose.script:69-164 | in every reachable state published tag <= tag register <= solver's number <= handed-over number <= old_seqnr <= input register 0 <= max(1, last_seqnr), and published acknowledgement <= acknowledgement register <= old_seqnr |
| Guarantees.SequenceNumbersNeverFall | scripts/tcp_pose.script:115-162 | along every run each of those numbers only grows |
| Guarantees.RunInv | src/robot.cpp:203-422 | the conjunction of all invariants is kept by every run |
| Guarantees.SentStreamIsCommandLog | src/robot.cpp:315-422 | the wire has carried exactly the registration frame and the frames of the atomic command log, numbers strictly increasing and no command word empty, failed sends included |
| Guarantees.MutualExclusion | src/robot.cpp:203-262 | a client thread inside a critical section is there with no other thread and not with the receiver |
| Guarantees.WideWindowNeverBinds | src/robot.cpp:376-406 | a window of 2^32 is no limit: the guard holds in every reachable state |
| Guarantees.UnackedCounts | src/robot.cpp:376-406 | what the window bounds is the number of command frames numbered above the acknowledgement |
| Guarantees.ReadsAreWholeFrames | src/robot.cpp:239-262 | every Robot_State returned is the initial state or one accepted frame's cells, though frames are parsed without the mutex |
| Guarantees.SyncReadsAreFresh | src/robot.cpp:246-262 | across all threads, in lock order, a synchronous read is of a strictly newer frame than every read before it |
| Guarantees.ReadsAreNewest | src/robot.cpp:239-267 | a read returns the newest publication and a synchronous one leaves at most 500 log entries |
| Guarantees.TimestampsConserved | src/robot.cpp:232-267 | drained batches followed by the current log are the published frames' timestamps, once each and in order, and every batch has more than 500 |
| Guarantees.ActedOnAtMostOnce | scripts/tcp_pose.script:115-121 | the script's actions carry strictly increasing numbers |
| Guarantees.ActionsAreRegisterReads | scripts/tcp_pose.script:116-160 | whatever lands meanwhile, an action's number, command word and each further word are those of frames that were in the registers one after another |
| Guarantees.UndisturbedCommandsAreWhole | scripts/tcp_pose.script:122-160 | an action is on the whole command of the frame its number came from exactly if its last word came from that frame |
| Guarantees.NoLaterCommandHidden | scripts/tcp_pose.script:116-121 | if de-duplication skips a number other than 1, the script has acted on the whole command that is in the registers, command word and vector |
| Guarantees.StopsExactlyOnHalt | scripts/tcp_pose.script:122-143 | the script keeps running exactly until it acts on a stop, and hands over the last speed action's vector, or zeros if a stop came after it |
| Guarantees.ControllerAtRest | scripts/tcp_pose.script:69-164 | with both loops at their heads and no pose waiting, the output registers hold the number of the last action, and the number and the angles of the last pose action |
| Guarantees.StopEndsRunning | src/robot.cpp:408-422 | with no stop under way, running says exactly that none was called, and the receiver ends its loop only for a stop |
| Guarantees.EveryDataFrameIsPublished | src/robot.cpp:203-237 | the data frames received are published in order, none passed over, all but the one in hand |
| Guarantees.SyncReadPossibleIff | src/robot.cpp:254-262 | with the mutex free, a synchronous read goes through exactly if there is a publication no read has returned |
| FirstCommand.FirstCommandActedOnIff | src/rtde_handler.cpp:105-114 | the action under number 1 is on the whole first command frame exactly if its last word came from it, on no command exactly if that came from the registration frame, and there is no other action under 1 |
| FirstCommand.FirstCommandDoomedIff | include/urx/robot.hpp:132-135 | when the first call begins, no continuation acts on a command under number 1 exactly if the script is done with the registration frame; a published acknowledgement of 1 shows that it is |
| FirstCommand.FirstCommandLostOrWhole | scripts/tcp_pose.script:115-160 | with callers that wait, number 1 goes to no command, to a stop, or to the whole first command |
| Witnesses.FirstCommandSkipped | include/urx/robot.hpp:132-135 | a run that leaves the first command in the registers with the script's loop doing nothing, because the registration frame was numbered 1 too |
| Witnesses.SpeedVectorTorn | scripts/tcp_pose.script:133-142 | with two unacknowledged commands allowed, a run that hands the speed thread one element of one command and five of the next |
| ChainInvariant.ChainStep | scripts/tcp_pose.script:69-164 | every step keeps the order of the sequence numbers and lowers none |
| SenderInvariant.SenderStep | src/robot.cpp:315-422 | every step of any thread keeps the sender's variables and the wire in agreement with the command log, mid-call states included |
| SnapshotInvariant.ReadsStep | src/robot.cpp:239-262 | every step keeps: a copy in progress agrees with the published state, finished reads are whole frames, synchronous ones newer |
| SnapshotInvariant.StampsStep | src/robot.cpp:232-267 | every step keeps drained batches plus log equal to the publications' timestamps |
| ControllerInvariant.ControllerStep | scripts/tcp_pose.script:69-164 | every step keeps the script's variables and output registers as its actions say, and a pose handed over waiting, being solved or answered |
| LifecycleInvariant.LifecycleStep | src/robot.cpp:203-262 | every step keeps running tied to the stops called, publications to the frames received, and the update flag to what is unread |
| CommandLog.ReplayIsLog | src/robot.cpp:315-422 | replaying the calls one after another puts on the wire exactly the frames described without replay: number = call count, own command, latest whole speed and pose vectors |
| CommandLog.FramesIncrease | src/robot.cpp:396-398 | numbers of sent frames are 1 or more and strictly increase while fewer than 2^32 calls were made |
| CommandLog.FramesIncreaseIff | src/robot.cpp:396-398 | with every send taken, the numbers on the wire strictly increase exactly while fewer than 2^32 calls were made, the 2^32nd being numbered 0 |
| Passages.SendAll | src/robot.cpp:376-406 | the machine's steps of one undisturbed call add up to one execution of the command log |
| Passages.SolveAll | scripts/tcp_pose.script:75-100 | the solver's steps, undisturbed, publish the pose's answer under its number |
| Passages.ReceiveAll | src/robot.cpp:203-237 | the receiver's steps, undisturbed, publish exactly the next data frame and log its timestamp |
| Passages.ReadAll | src/robot.cpp:239-304 | the steps of an undisturbed read return the published state, clear the update flag, and drain the log only if the read is synchronous and the log past 500 |
| Passages.StopAll | src/robot.cpp:408-422 | the steps of an undisturbed stop are one execution of the command log, and running ends |
| Passages.HaltAll | scripts/tcp_pose.script:123-128 | a stop in the registers ends the script's loop with zero speeds and is acknowledged |
| Robot.Robot.constructor | include/urx/robot.hpp:123-139 | nothing initialised, number 1 and no command in the input variables, last_seqnr 0 |
| Robot.Robot.CopyVector | src/robot.cpp:388-394 | the element loop replaces exactly the six registered variables |
| Robot.Robot.UpdateW | src/robot.cpp:376-406 | wrong size or no init changes nothing; otherwise one execution of the command log, true exactly if the connection took the frame |
| Robot.Robot.RequestQRef | src/robot.cpp:315-343 | the same for a pose request, and the number waited on is the number sent |
| Robot.Robot.WaitForQRef | src/robot.cpp:362-374 | returns through its predicate exactly if one of 500 attempts finds the number, at the first that does |
| Robot.Robot.CalculateQRef | src/robot.cpp:315-358 | both branches wait on the call's own number; true means sent, not answered |
| Robot.Robot.Stop | src/robot.cpp:408-422 | false and unchanged when not running; otherwise one Halt execution of the log, whose failed send does not fail the call, and running ends |
| Robot.Robot.Publish | src/robot.cpp:218-229 | three scalars and six vectors side by side copy all 39 cells |
| Robot.Robot.Recv | src/robot.cpp:203-237 | a usable frame is parsed, and published whole with its timestamp logged once initialised; otherwise nothing published changes |
| Robot.Robot.LocState | src/robot.cpp:239-244 | the copy is the published state and the update is taken note of |
| Robot.Robot.State | src/robot.cpp:246-307 | a timed-out synchronous read returns a fresh state and changes nothing; a successful one drains a log past 500 into one batch and leaves at most 500 |
| RobotFrames.InputFrameCarriesCells | src/robot.cpp:161-196 | the input recipe's frame is 104 bytes and reading its registers back gives every one of the 14 cells |
| Endian.SwappedImageIsNet | include/urx/helper.hpp:46-53 | what the host writes for a byte-swapped word is the word in network order |
| Endian.SwapOfImage | include/urx/helper.hpp:38-44 | swapping the word found in memory gives the number its bytes spell in network order |
| Endian.NetRoundTrip | include/urx/helper.hpp:38-53 | decoding the network bytes of a word gives it back, up to its width |
| Endian.NetByteAt | include/urx/helper.hpp:46-53 | byte k of an n-byte word on the wire is its k-th digit to the base 256 from the most significant |
| Endian.SwapTwice | include/urx/helper.hpp:38-53 | the two conversions are inverses on words that fit |
| Text.SplitJoin | src/rtde_recipe.cpp:50-58 | cutting a joined list at its commas gives it back exactly if its last item is not empty |
| Text.TrimStrips | include/urx/helper.hpp:15-22 | blanks outside ETX characters are stripped on both sides, the text is kept |
| Text.TrimIff | include/urx/helper.hpp:15-22 | a text wrapped in blanks and ETX characters is uncovered exactly if the blanks come outermost on both sides |
| Text.TrimTakes | include/urx/helper.hpp:15-22 | of any string, trim takes off blanks then ETX characters in front and ETX characters then blanks behind, nothing else |
| Magic.NameToTypeIsFirstPrefix | include/urx/magic.h:53-83 | a slice resolves to the first listed name it is a prefix of, and to NOT_FOUND exactly if there is none |
| Magic.SameUpToNul | include/urx/magic.h:57-79 | a slice that runs past a NUL matches a name exactly if it is that name up to the NUL |
| Magic.WordResolves | include/urx/magic.h:53-83 | each type name resolves to its own type, whole or short of its last letter |
| Magic.BeheadedResolves | src/header.cpp:239-243 | a refusal that lost its first letter to the recipe id still resolves to NOT_FOUND |
| Magic.AmbiguousPrefixes | include/urx/magic.h:53-83 | prefixes shared by several names resolve to the one compared first |
| Magic.NameToIdx | include/urx/magic.h:604-610 | the loop returns the first entry of that name, or -1 if there is none |
| Header.ControlMsg | src/header.cpp:166-201 | a list that fits becomes a NUL-terminated request of the right size and type with a cleared frequency, a longer one is refused, and no other byte changes |
| Header.ClearMsg | src/header.cpp:151-165 | size, type, zeroed frequency and empty payload, nothing beyond |
| Header.RequestRoundTrip | src/header.cpp:166-201 | splitting a request's list at commas gives the field names in order, and its size field is head plus name lengths plus n - 1 |
| Header.RespValidate | src/header.cpp:256-269 | the pointer loop terminates with the scanner's verdict |
| Header.ScannerTestsItems | src/header.cpp:256-269 | on a well-formed list the scanner stays on item boundaries and tests each item, the last without its last character |
| Header.DataPackageInit | src/header.cpp:272-279 | size, type and id of the package, payload untouched |
| Negotiation.ScannerFindsRefusals | src/header.cpp:256-269 | a reply of type names is accepted exactly if none is NOT_FOUND or IN_USE, in any position |
| Negotiation.ScannerFindsBeheadedRefusal | src/header.cpp:239-243 | a leading refusal whose first letter went into the recipe id is still rejected |
| Header.EmptyItemIsRefused | src/header.cpp:256-269 | nothing between two commas is refused, because the scanner steps over the second comma, though an empty name alone would resolve to BOOL |
| Negotiation.SplitterGetsItems | src/rtde_recipe.cpp:95-102 | the second parser recovers the items the scanner saw |
| Negotiation.RegistersExactlyOwnTypes | src/rtde_recipe.cpp:90-119 | a reply of type names registers a recipe exactly if it names the fields' types, all and in order |
| ReplyBytes.TypeReplyRegisters | src/rtde_recipe.cpp:90-119 | a reply [length, 'I' or 'O', id, list of type names] of at most 2000 bytes registers a recipe exactly if the types are its fields', whatever the buffer held |
| ReplyBytes.HeaderOkIff | include/urx/header.hpp:147-156 | a header is accepted exactly for a size of 3 to 2000 and type 'I' or 'O' |
| ReplyBytes.DataPackageIff | src/header.cpp:281-291 | a data package is accepted exactly for type 'U', a non-zero recipe id and a size of at least 4 |
| Negotiation.EtxReplyRegisters | src/rtde_recipe_token.cpp:133-137 | a list ended by ETX registers exactly like the list without it |
| Negotiation.RegisteredItemsResolve | src/rtde_recipe.cpp:104-115 | whatever the reply, success means equal counts and every trimmed item's first-prefix type is its field's |
| Layout.EveryHistoryTiles | src/rtde_recipe.cpp:14-63 | after any sequence of add_field, clear_fields and set_dir calls, failed ones included, the fields tile from the byte count at the last clear |
| Layout.TilingIsExact | src/rtde_recipe.cpp:33-35 | a byte lies between base and byte count exactly if one field, and only one, covers it |
| Layout.DirectionChanges | src/rtde_recipe.cpp:154-164 | set_dir changes the direction exactly while there are no fields, and nothing else |
| Layout.FieldsOfDirection | src/rtde_recipe.cpp:23-31 | after any sequence of calls every field's name and type are from the table of the recipe's direction |
| Layout.StoredBytes | src/rtde_recipe_token.cpp:20-48 | storing leaves a BOOL, UINT8, UINT32, INT32 or DOUBLE field its own variable's 1, 1, 4, 4 or 8 network bytes, and every other byte as it was |
| Layout.TypeTable | include/urx/magic.h:85-99 | element count, element width and size of every type |
| Layout.FieldReads | src/rtde_recipe_token.cpp:66-113 | a field that carries words x0, x1, ... on the wire leaves x_c in element c of its variable, for scalars and for vectors of 3 and 6, wherever the other fields lie |
| Layout.ParsedCells | src/rtde_recipe.cpp:121-135 | parsing gives every registered variable its own field's value and touches no other |
| Layout.ParseReadsOwnBytes | src/rtde_recipe.cpp:121-135 | what is parsed depends only on the bytes the fields cover |
| Layout.NamesReadBack | src/rtde_recipe_token.cpp:19-41 | for any list of names in both tables, what an input recipe stores an output recipe of the same names parses back, BOOL as zero or not |
| Recipe.StoreFillsExactly | src/rtde_recipe.cpp:137-151 | a never-cleared recipe's fields make up exactly its bytes of the payload, each stored as its type says |
| Recipe.GetLines | src/rtde_recipe.cpp:98-99 | the getline loop is the split at commas |
| Recipe.Recipe.constructor | include/urx/rtde_recipe.hpp:24-34 | inactive, id -1, no fields, output direction |
| Recipe.Recipe.AddField | src/rtde_recipe.cpp:14-37 | accepted exactly for a present variable and a listed name; appends at the running offset, otherwise changes nothing |
| Recipe.Recipe.ClearFields | src/rtde_recipe.cpp:60-63 | forgets the fields, keeps the byte count, keeps the tiling |
| Recipe.Recipe.SetDir | src/rtde_recipe.cpp:154-164 | refused exactly when the direction differs and there are fields |
| Recipe.Recipe.TrackTs | src/rtde_recipe.cpp:38-48 | a given variable is tracked from 0 |
| Recipe.Recipe.GetFields | src/rtde_recipe.cpp:50-58 | the append-and-pop loop is the comma-joined name list |
| Recipe.Recipe.GetMsg | src/rtde_recipe.cpp:83-88 | the request of the recipe's direction, from which the names and the size can be read back |
| Recipe.Recipe.RegisterResponse | src/rtde_recipe.cpp:90-119 | registered exactly if both parsers agree, with the reply's id; otherwise id and state are unchanged |
| Recipe.Recipe.StoreToken | src/rtde_recipe_token.cpp:19-48 | the swapped word's memory image at the offset is the field in network order, nothing else changes |
| Recipe.Recipe.Store | src/rtde_recipe.cpp:137-151 | refused without a frame or for an output recipe; otherwise header and every field in place, the size field decoding to 4 plus the byte count |
| Recipe.Recipe.ReadElement | src/rtde_recipe_token.cpp:66-113 | swapping an element's memory image gives its network-order value, BOOL as zero or not |
| Recipe.Recipe.ParseToken | src/rtde_recipe_token.cpp:66-113 | the element loop sets exactly this field's variable |
| Recipe.Recipe.Parse | src/rtde_recipe.cpp:121-135 | refused without a frame or for an input recipe; otherwise all variables and the tracked time |
| Handler.WholeFrameDecides | src/rtde_handler.cpp:153-170 | a frame of the recipe's size is accepted exactly if it says length, 'U' and the recipe's non-zero id, and decodes to its own payload, whatever the reused buffer held |
| Handler.Handler.Fill | src/con.cpp:84-87 | the received bytes, a NUL behind them if there is room, the rest of the buffer as it was |
| Handler.Handler.ParseIncomingData | src/rtde_handler.cpp:153-170 | all variables and the time change exactly if type, non-zero id, id match and size match hold; otherwise none |
| Handler.Handler.Recv | src/rtde_handler.cpp:176-186 | the same of a received frame, and nothing on a failed receive |
| Handler.Handler.FindRecipe | src/rtde_handler.cpp:190-192 | finds a recipe of that id exactly if there is one |
| Handler.Handler.Send | src/rtde_handler.cpp:188-202 | without such a recipe nothing is sent; otherwise its stored package, as many bytes as its header says, goes out |
| Handler.Handler.Negotiate | src/rtde_handler.cpp:88-100 | the request goes out, and the reply, NUL-terminated over its end or the last byte, decides; a refused recipe is unchanged |
| Handler.Handler.Adopt | src/rtde_handler.cpp:102-116 | an output recipe replaces the old one; an input recipe takes a free id only and its package is sent at once |
| Handler.Handler.RegisterRecipe | src/rtde_handler.cpp:83-117 | the request goes out; a reply of type names makes the recipe active under the reply's id exactly if they are its fields' types; a refusal changes no recipe and no table; an input recipe's package follows the request, and its failed send leaves it registered |
| Regulator.SpeedBound | tools/robot_speed.cpp:13-23 | over any run of errors no larger than e no commanded speed exceeds 2.63 e |
| Regulator.SpeedIsSum | tools/robot_speed.cpp:13-23 | after errors e_0 to e_n the speed is the sum over k of 0.005^(n-k) times (0.7 + 1/1.1) e_k - e_(k-1) |
| Regulator.ConstantErrorConverges | tools/robot_speed.cpp:13-23 | under a constant error the distance to ((0.7 + 1/1.1 - 1)/0.995) times the error is the n-th power of 0.005 of what it was |
| Regulator.CommandsBounded | tools/robot_speed.cpp:83-98 | while a joint's errors stay within e, no command of the loop exceeds 2.63 e for it |
| Regulator.CloseVec | include/urx/helper.hpp:93-102 | true exactly if the sizes agree and no element is off by more than epsilon |
| Regulator.Regulate | tools/robot_speed.cpp:83-98 | every commanded speed is that sum over the errors so far and within 2.63 times their bound, the loop ends at the first close state, and then commands rest |

## Left out

- Sockets, connecting, partial sends and receives, receive-time clocks: wires are FIFO queues and a clock reading is a parameter.
- Timing, scheduling, thread creation, `start_cv` and progress of any kind: only safety is stated.
- `RTDE_Handler::start` and `stop` (whose reply is validated as a START reply), the version handshake, the controller version query, `send_emerg_msg`, `rtde_mkreq_msg_out`: short builders and predicates.
- `rtde_control_msg_finalize` and the value of `update_freq`: the first is never called, the second is always cleared.
- STRING fields: no table lists one and their parser copies in the wrong direction. UINT64 and vector types have no input store in the source; the model's store leaves their bytes alone as well.
- The full name tables: tables are parameters with the facts the proofs use, namely legal names, known types, and agreement on names in both.
- A list too long for a request: the recipe then offers whatever its request frame held before; the model says only that the list is refused.
- `register_response(NULL)`, allocation, freeing and destructors.
- `local_ts_us` in snapshot equality: the copy constructor does not copy it. It is kept in the timestamp log.
- `cmd` values other than 1, 2 and 3 sent by other RTDE clients: this client is the only writer of the input registers.
- The script's speed thread, `speedj`, and `scripts/ur_speedj.script`: the model ends where the vector is handed over.
- `init_output` and `init_input` without TCP pose, script upload, `URX_Handler`, `URX_Script`, the other tools.
- Inverse kinematics is an arbitrary function, and regulator arithmetic is over reals, without rounding.
- Robot.Robot.Recv: works on cells; that the cells travel unchanged is `InputFrameCarriesCells` for the input frame, while the output frame's encoder is the controller's and not part of this model.
- Robot.Robot.WaitForQRef: what the other threads write between attempts is the parameter `seen`; the interleaved wait is the machine's `WaitHit` and `WaitTimeout`.
- Handler.Handler.FindRecipe: which of two recipes of one id is found is left open, as the source's table is unordered.
- CommandLog.FramesIncrease: fewer than 2^32 calls, since the number wraps there (`FramesIncreaseIff`); the step machine stops short of the wrap for the same reason.
- Header.ControlMsg: not for a list that fills the frame to its last byte, for which the source writes a terminator past the frame.
- Recipe.Recipe.GetMsg: not for such a list either.
- FirstCommand.FirstCommandDoomedIff: nothing a client can see tells it for certain that its first command will not be lost, since the script may be done with the registration frame unseen.
