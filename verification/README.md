# CPU scheduling simulator — a verified model

The simulator keeps a collection of process control blocks. Each block holds:
- an id;
- a priority;
- the CPU time used so far;
- the time still required;
- a state: READY, RUNNING or FINISHED.

Two schedulers run the collection to completion, one time slice at a time.

- **Priority scheduling** with decay (`priorityScheduling`). First every block is set READY. Then each slice:
  - collects the unfinished blocks;
  - sorts them by descending priority;
  - marks the front one RUNNING and reports the collection;
  - runs that block for one slice. Its required time drops by one, its priority drops by 3 and its CPU time grows by one;
  - sets the block FINISHED when no time is left, READY otherwise.
- **Simple round robin** (`roundRobinScheduling`). Every block is set READY and enqueued in collection order. Then each slice:
  - dequeues the head and marks it RUNNING;
  - reports the collection and runs the block for one slice;
  - enqueues the block again at the tail unless it has FINISHED.

  The time quantum parameter is accepted but never read.

## How it is modelled

- A block is the datatype `Process.PCB` with unbounded integer fields. The collection is an `array<PCB>` that both schedulers update in place.
- The source's pointers into the collection become indices. The round-robin queue is a `seq<nat>` of indices.
- A single function, `Process.Execute`, is the effect of one slice. Both schedulers share it; they differ only in priority decay (`Process.Decay`: 3 or 0).
- A run is described by its **trace**, the index selected in each slice. Each scheduler method returns it as a ghost out-parameter.
- The report printed in every slice becomes a ghost **snapshot** of the collection at the moment of printing.
- `Slices.Replay` gives the collection after a trace. Each scheduler's final array is tied to it. The properties of a whole run are proved about `Replay`: per-record accounting, termination measure, completion.
- Priority scheduling is tied to `PriorityScheduling.ChoosesHighestPriority`. Every slice picks an unfinished block that no other unfinished block outranks.
- Round robin is tied to a pure state machine: `RoundRobinScheduling.RoundRobinStep`, iterated by `RoundRobinIterate`. The queue invariant, the fairness property and the uniqueness of the run are proved on it.
- The sort is used only for its front element. `PriorityScheduling.SortedFront` computes that element directly.
- The standard sort is not stable. So the model promises no tie-break among equal priorities: any unfinished block of maximal priority may be chosen. `PriorityChoiceUpToTies` shows that the choice is unique when no priorities tie.
- The comparator the sort is given (test.cpp:69-71) is the same relation as `comparePriority` (test.cpp:24-26). Both are modelled by `Process.ComparePriority`.

### Points where the code decides

- **Ties in priority.** `std::sort` (test.cpp:69) is not stable, so the model promises no tie-break among equal priorities.
- **Blocks that start with no required time.** A block that starts at required time 0 is decremented to −1. The FINISHED test at test.cpp:84 (test.cpp:118 for round robin) is checked every slice, but for that block it is never true, so neither loop ever ends. The only caller draws required times from 1 to 10 (test.cpp:140). Both schedulers therefore *require* every required time to be at least 1 (`Process.Startable`).

## Model

| member | source | states |
|---|---|---|
| Process.ComparePriority | test.cpp:24-26 | The comparator used by both `comparePriority` and the sort's lambda (test.cpp:69-71). Equal priorities are never ordered, so the sort may put either first. Of two blocks with different priorities, exactly one goes first: the one with the higher priority. |
| Process.Reset | test.cpp:55-57 | The READY pass keeps the size of the collection. Every block becomes READY and keeps its id, priority, CPU time and required time. The round-robin initial pass (test.cpp:101-102) is the same. |
| Process.ComparePriorityIsStrictWeakOrder | test.cpp:24-26 | The priority comparator is irreflexive, asymmetric and transitive, and incomparability is transitive: it is a strict weak ordering, as the sort requires. |
| Process.Execute | test.cpp:81-88 | One slice keeps the id. CPU time grows and required time shrinks, with their sum conserved. The block is FINISHED exactly when its required time is 0, is never left RUNNING, and stays in the between-slices shape when it had time left. |
| Process.MarkRunning | test.cpp:74-78 | The reported collection has the same size. When nothing was running before, exactly the selected block is RUNNING. |
| Process.ResetIsBetweenSlices | test.cpp:55-57 | After the initial reset every block is READY, and a startable collection is in the between-slices shape. |
| Process.ResetKeepsTotal | test.cpp:55-57 | The reset does not change the total required time. |
| Process.TotalRequiredUpdate | test.cpp:81 | Replacing one block changes the total required time by exactly that block's change. |
| Process.TotalRequiredBetweenSlices | test.cpp:59-66 | Between slices the total required time is never negative, and it is 0 exactly when every block is FINISHED, i.e. when the scheduler stops. |
| Slices.Replay | test.cpp:59-91 | Replaying a trace keeps the size of the collection. |
| Slices.ReplaySnoc | test.cpp:81-88 | One more slice applies the slice effect to the selected block and leaves every other block unchanged. |
| Slices.ReplayAccounting | test.cpp:81-83 | After any run, each block has been charged once per occurrence of its index in the trace: the id is unchanged, and CPU time is up by that count. Required time is down by that count. Priority is down by the decay times that count. Blocks that never ran are unchanged. |
| Slices.ReportedSnoc | test.cpp:75-78 | Adding a report taken between slices keeps every report exact (the state when the slice starts, with the selected block RUNNING) and exclusive (no other block RUNNING). |
| Slices.ReplayProgress | test.cpp:59-91 | A run that only picks unfinished blocks keeps every block between slices. It lowers the total required time by exactly one per slice, which is the termination measure. |
| Slices.ChargedToCompletion | test.cpp:84-85 | A block that started READY with time required and ended FINISHED ran exactly its required time, and ends as `Completed`. |
| Slices.CompleteRun | test.cpp:59-91 | A run from the reset collection that picks only unfinished blocks and ends with all FINISHED has as many slices as the total required time. It runs each block exactly as often as it needed and leaves every block with its required time turned into CPU time and its priority decayed once per slice. |
| PriorityScheduling.PriorityChoiceUpToTies | test.cpp:69-74 | Any two admissible front blocks have the same priority. Without tied priorities the front block is unique. |
| PriorityScheduling.HighestPriorityIsUnfinished | test.cpp:61-66 | A priority schedule never selects a FINISHED block. |
| PriorityScheduling.ChoosesHighestPrioritySnoc | test.cpp:69-74 | Extending a priority schedule by a priority choice keeps it a priority schedule. |
| PriorityScheduling.CollectUnfinished | test.cpp:61-64 | The collected indices are exactly the unfinished blocks: each is in range and unfinished, every unfinished block is present, and they are strictly increasing (each at most once, in collection order). |
| PriorityScheduling.SortedFront | test.cpp:69-74 | The front block is one of the collected ones, and no collected block has a strictly higher priority. |
| PriorityScheduling.ResetStates | test.cpp:55-57 | The array becomes the reset collection: every state READY, nothing else changed. |
| PriorityScheduling.RunPrioritySlice | test.cpp:74-88 | The report is the collection with the selected block RUNNING. The array changes only at the selected block, which takes the slice effect with a priority decay of 3. |
| PriorityScheduling.PriorityScheduling | test.cpp:50-92 | Every slice runs an unfinished block of maximal priority. The final array is the replay of the trace from the reset collection, and every report is exact with exactly one block RUNNING. The run has one slice per unit of total required time and ends with every block FINISHED. Its whole required time has become CPU time and its priority is lower by 3 per slice. |
| RoundRobinScheduling.Indices | test.cpp:100-104 | The initial queue lists every index in collection order. |
| RoundRobinScheduling.IndicesCount | test.cpp:100-104 | The initial queue holds every index exactly once. |
| RoundRobinScheduling.RoundRobinStep | test.cpp:106-123 | A round-robin step keeps the size of the collection and keeps the queue's indices in range. |
| RoundRobinScheduling.RoundRobinIterate | test.cpp:106-126 | The state of the round-robin loop after `n` turns, stopping once the queue is empty. It keeps the size of the collection and the queue's indices in range. The queue never grows, because each turn drops its head or moves it to the tail. |
| RoundRobinScheduling.StepKeepsQueue | test.cpp:106-123 | When the queue holds exactly the unfinished blocks, its head is unfinished. The step applies the slice effect to it and keeps everything between slices. The new queue again holds each unfinished block exactly once and no finished one: the head is re-enqueued exactly when it is unfinished. |
| RoundRobinScheduling.StepKeepsBalance | test.cpp:118-123 | Along the queue, CPU times never decrease and the tail is at most one slice ahead of the head; a step keeps this. |
| RoundRobinScheduling.BalancedBound | test.cpp:106-123 | A balanced queue of exactly the unfinished blocks bounds the difference of any two unfinished blocks' CPU times by one. |
| RoundRobinScheduling.RoundRobinInvariant | test.cpp:100-123 | Starting from the reset collection and the queue of all indices, after any number of steps every block is between slices and the queue holds each unfinished index exactly once. If all CPU times start equal, the queue also stays balanced. |
| RoundRobinScheduling.RoundRobinFairness | test.cpp:106-126 | When all CPU times start equal, the CPU times of any two unfinished blocks differ by at most one at every point of the run. |
| RoundRobinScheduling.RoundRobinTraceReplays | test.cpp:106-126 | Following the round-robin order gives the same collection as replaying its trace. |
| RoundRobinScheduling.RoundRobinRunIsFair | test.cpp:106-126 | Fairness of the scheduler's trace: between any two slices of a round-robin run whose CPU times all started equal, any two unfinished blocks' CPU times differ by at most one. |
| RoundRobinScheduling.RoundRobinTraceSnoc | test.cpp:107-108 | Serving the current head of the queue extends the round-robin order by one slice. |
| RoundRobinScheduling.RoundRobinTraceChoosesUnfinished | test.cpp:106-123 | A round-robin run from the queue of all blocks only serves unfinished blocks, and following it is replaying it. |
| RoundRobinScheduling.RoundRobinRunStep | test.cpp:106-125 | One served head keeps the loop invariant: round-robin order, queue state, every slice reported. It applies the slice effect to the head and lowers the total required time by one without going negative. |
| RoundRobinScheduling.RoundRobinRunDone | test.cpp:106 | When the queue is empty, every block is FINISHED, the run chose only unfinished blocks, and its result is the replay of its trace. Every block was run to completion with one slice per unit of required time. |
| RoundRobinScheduling.RoundRobinRunUnique | test.cpp:95 | Two completed round-robin runs from the same blocks have the same trace, reports and final collection. So the outcome is fixed by the blocks alone, and the unread time quantum cannot change it. |
| RoundRobinScheduling.RoundRobinKeepsPriority | test.cpp:114-116 | Round robin never changes any block's priority. |
| RoundRobinScheduling.EnqueueAll | test.cpp:100-104 | The array becomes the reset collection, and the queue lists every index in collection order. |
| RoundRobinScheduling.ServeHead | test.cpp:107-123 | The head is reported RUNNING, and the array and new queue are exactly one round-robin step from the old ones. |
| RoundRobinScheduling.RoundRobinScheduling | test.cpp:95-127 | The run serves the blocks in round-robin order from the queue of all blocks until the queue is empty. It reports every slice exactly with one block RUNNING and chooses only unfinished blocks. The final array is the replay of the trace. The run has one slice per unit of total required time and ends with every block FINISHED, its required time turned into CPU time and its priority unchanged. |

## Left out

- `printProcesses` (test.cpp:29-47) writes a formatted table to the console. Each call is modelled as a ghost snapshot of the collection, indexed by its time slice; the formatting is not modelled.
- `main` (test.cpp:130-166) is not part of this model. Its random initialisation and menu input are nondeterministic I/O. Only its guarantee that every required time is at least 1 is kept, as the precondition `Process.Startable`. Its guarantee that CPU times start at 0 is kept as the equal-start hypothesis of the fairness lemmas.
- The sort at test.cpp:69-71 is modelled by the element it puts in front, not as a rearrangement of the pointer vector. Only the front is ever read.
- Tie-breaking among equal priorities is not modelled, because `std::sort` does not fix it. `PriorityScheduling.SortedFront` happens to take the first of the tied blocks in collection order; the scheduler's contract does not depend on this.
- Fixed-width `int` overflow is not modelled: priority falling by 3 per slice, or CPU time growing. All fields are unbounded integers, which is exact for the values `main` generates.
- Pointer aliasing is not modelled. The source's pointers into the vector become indices into the array.
- The unused `timeQuantum` parameter is accepted and ignored. There is no time quantum to model.
- The console headings printed on entry to each scheduler are not modelled.
