# ExternalEmbedding: a verified model of DGL-KE's sparse embedding table

DGL-KE trains knowledge-graph embeddings. Its PyTorch back end keeps each
entity or relation table in an `ExternalEmbedding` (in
`python/dglke/models/pytorch/tensor_models.py`): a fixed number of rows of
one width, with one Adagrad accumulator per row. The table works as follows:

- A read gathers the requested rows. When it is traced, the read records the
  indices and the rows it handed out, so that the next `update` can apply
  the gradients that autograd attaches to them.
- `update` applies one sparse Adagrad step per trace entry and then empties
  the trace. Each step does two scatter-adds:
  - the mean squared gradient is scatter-added into the accumulator;
  - `-lr * grad / (sqrt(acc) + 1e-10)` is scatter-added into the rows.
- With "cross relations", the rows named in a bitmap have an authoritative
  copy in a second table. Reads refresh those rows from that table first.
  Updates apply the overflow part of every gradient batch to the second
  table as well.
- With an update queue, `update` hands the batches to a worker
  (`async_update`), and the worker applies them with the same step.

The model has five modules.

- `SparseOps` (`sparse_ops.dfy`) models the tensor primitives the table is
  built from, as functions on sequences with lemmas about them:
  - gather;
  - boolean-mask selection;
  - `unique`;
  - `index_add_`;
  - indexed assignment.

  It also holds the in-place array versions of `index_add_` and indexed
  assignment. Each of these is proved equal to its function.
- `Adagrad` (`adagrad.dfy`) holds the step on a table seen as a value
  (`SparseStep`). It also holds the fold of that step over a trace
  (`SyncSteps`) and its cross-relation form (`CrossStep`, `CrossSyncSteps`),
  with their properties:
  - rows outside the batch are left alone;
  - the accumulator never decreases;
  - zero gradients are no-ops;
  - the device table and the authoritative table split as the source
    intends.
- `UpdateQueue` (`update_queue.dfy`) models the request queue as a class
  over a sequence, and the worker's effect as a fold (`ApplyJobs`). It
  proves that queuing a trace and letting the worker drain it gives the
  same table as the synchronous update.
- `Embedding` (`embedding.dfy`) holds three things:
  - the `ExternalEmbedding` class, with the rows in an `array<seq<real>>`,
    the accumulator in an `array<real>`, and the trace, bitmap,
    authoritative table and queue as fields;
  - its operations as methods, each proved against the functions above;
  - the worker loop `AsyncUpdate`.
- `Scenarios` (`scenarios.dfy`) works one concrete update through the
  model.

Design decisions that differ from a literal reading:

- **Epsilon placement.** The code adds `1e-10` after the square root:
  `std.sqrt_().add_(1e-10)`, at `tensor_models.py:466`. Written out, the
  divisor is `sqrt(acc) + 1e-10`, not `sqrt(acc + 1e-10)`, and the model
  follows the code.
- **Repeated indices.** `update` does not require an entry's indices to be
  distinct, although the comment at `tensor_models.py:432` says they must
  be. `index_add_` accumulates repeated indices, and the model does the
  same:
  - `IndexAddSum` states the accumulation.
  - The accumulator is gathered after all adds, as in the source.
  - Only the per-row lemmas that give a row's exact new value require
    distinct indices.
- **Reals and `Sqrt`.** Values are reals. `Sqrt` is a stand-in whose only
  property used is that it is never negative, which makes
  `Sqrt(acc) + 1e-10` a positive divisor. No numeric closeness to float32
  is claimed.

## Model

| member | source | states |
|---|---|---|
| SparseOps.Gather | python/dglke/models/pytorch/tensor_models.py:311-313 | `t[idx]`: one element per index, element k being `t[idx[k]]` |
| SparseOps.MaskPositions | python/dglke/models/pytorch/tensor_models.py:283-284 | The positions a boolean mask selects: increasing, in range, each one set, and every set position is among them |
| SparseOps.MaskSelect | python/dglke/models/pytorch/tensor_models.py:284 | `t[mask]` is never longer than `t`; `MaskSelectAt` gives its elements |
| SparseOps.MaskSelectAt | python/dglke/models/pytorch/tensor_models.py:283-284 | `t[mask]` has one element per selected position, in order, and element j is `t` at the j-th selected position |
| SparseOps.MaskSelectMembers | python/dglke/models/pytorch/tensor_models.py:283-284 | x occurs in `t[mask]` exactly when x occurs in `t` at a position whose mask bit is set |
| SparseOps.MaskSelectNoDuplicates | python/dglke/models/pytorch/tensor_models.py:448-449 | Selecting from distinct indices gives distinct indices |
| SparseOps.MaskSelectInRange | python/dglke/models/pytorch/tensor_models.py:307-308 | Selecting from in-range indices gives in-range indices |
| SparseOps.Not | python/dglke/models/pytorch/tensor_models.py:283 | `~mask` has the same length, with every bit flipped |
| SparseOps.Unique | python/dglke/models/pytorch/tensor_models.py:309 | `th.unique`: sorted, free of duplicates, in range, and holds exactly the values of its input |
| SparseOps.IndexAdd | python/dglke/models/pytorch/tensor_models.py:462 | `index_add_` keeps the length of the target |
| SparseOps.IndexAddOutside | python/dglke/models/pytorch/tensor_models.py:462 | `index_add_` leaves every entry whose index is not named unchanged |
| SparseOps.IndexAddAt | python/dglke/models/pytorch/tensor_models.py:462 | With distinct indices, entry `idx[k]` grows by exactly `v[k]` |
| SparseOps.IndexAddSum | python/dglke/models/pytorch/tensor_models.py:462 | Repeated indices accumulate: entry i grows by the sum of all amounts named i |
| SparseOps.IndexAddGrows | python/dglke/models/pytorch/tensor_models.py:462 | Adding non-negative amounts never decreases an entry, duplicates included |
| SparseOps.IndexAddZero | python/dglke/models/pytorch/tensor_models.py:462 | Adding zeros changes nothing |
| SparseOps.IndexAddRowsOutside | python/dglke/models/pytorch/tensor_models.py:471 | Row-wise `index_add_` leaves rows that are not named unchanged |
| SparseOps.IndexAddRowsAt | python/dglke/models/pytorch/tensor_models.py:471 | With distinct indices, row `idx[k]` becomes the old row plus `v[k]` |
| SparseOps.IndexAddRowsZero | python/dglke/models/pytorch/tensor_models.py:471 | Adding zero rows changes nothing |
| SparseOps.IndexAddRows | python/dglke/models/pytorch/tensor_models.py:471 | Row-wise `index_add_` keeps the number of rows and every row's width |
| SparseOps.Scatter | python/dglke/models/pytorch/tensor_models.py:312 | `t[idx] = v` keeps the length of the target |
| SparseOps.ScatterOutside | python/dglke/models/pytorch/tensor_models.py:312 | `t[idx] = v` leaves elements whose index is not named unchanged |
| SparseOps.ScatterAt | python/dglke/models/pytorch/tensor_models.py:312 | With distinct indices, element `idx[k]` becomes `v[k]` |
| SparseOps.ScatterInPlace | python/dglke/models/pytorch/tensor_models.py:312 | The in-place assignment loop leaves the array equal to `Scatter` of its old contents |
| SparseOps.IndexAddInPlace | python/dglke/models/pytorch/tensor_models.py:462 | The in-place `index_add_` loop leaves the array equal to `IndexAdd` of its old contents |
| SparseOps.IndexAddRowsInPlace | python/dglke/models/pytorch/tensor_models.py:471 | The in-place row-wise `index_add_` loop leaves the array equal to `IndexAddRows` of its old contents |
| Adagrad.Sqrt | python/dglke/models/pytorch/tensor_models.py:466 | The square root is never negative |
| Adagrad.SumSq | python/dglke/models/pytorch/tensor_models.py:440 | A sum of squares is non-negative, and zero exactly for the zero vector |
| Adagrad.MeanSq | python/dglke/models/pytorch/tensor_models.py:440 | `(grad * grad).mean(1)` of a row is non-negative, and zero exactly for a zero row |
| Adagrad.RowMeanSq | python/dglke/models/pytorch/tensor_models.py:440 | `grad_sum` has one entry per gradient row, never negative, and zero exactly for a zero row |
| Adagrad.StepRow | python/dglke/models/pytorch/tensor_models.py:466-467 | One row of the step: at a positive learning rate every entry has the opposite sign of its gradient entry, and is zero where the gradient is zero |
| Adagrad.ScaledStep | python/dglke/models/pytorch/tensor_models.py:466-467 | The steps of a batch have one row per gradient row, each of the gradient row's width |
| Adagrad.StepRowZero | python/dglke/models/pytorch/tensor_models.py:466-467 | A zero gradient row gives a zero step whatever the accumulator holds, because the divisor is positive |
| Adagrad.SparseStep | python/dglke/models/pytorch/tensor_models.py:462-471 | One step keeps the table's shape |
| Adagrad.SparseStepOutside | python/dglke/models/pytorch/tensor_models.py:462-471 | Rows and accumulator entries outside the batch are unchanged by a step |
| Adagrad.SparseStepAt | python/dglke/models/pytorch/tensor_models.py:462-471 | With distinct indices, the accumulator of row `idx[k]` grows by the mean square of gradient row k, and the row gains the step scaled by the new accumulator |
| Adagrad.SparseStepGrows | python/dglke/models/pytorch/tensor_models.py:462 | A step never decreases any accumulator entry |
| Adagrad.SparseStepStrict | python/dglke/models/pytorch/tensor_models.py:462 | With distinct indices, a touched row's accumulator strictly grows exactly when its gradient row is non-zero |
| Adagrad.SparseStepZero | python/dglke/models/pytorch/tensor_models.py:462-471 | A zero gradient leaves both rows and accumulator unchanged |
| Adagrad.SparseStepEmpty | python/dglke/models/pytorch/tensor_models.py:450 | An empty batch changes nothing |
| Adagrad.SyncSteps | python/dglke/models/pytorch/tensor_models.py:426-471 | Applying a trace's steps in order keeps the table's shape |
| Adagrad.SyncStepsOutside | python/dglke/models/pytorch/tensor_models.py:426-471 | Rows that no trace entry names keep their row and accumulator through a whole update |
| Adagrad.SyncStepsGrows | python/dglke/models/pytorch/tensor_models.py:426-471 | Over a whole update the accumulator never decreases |
| Adagrad.SyncStepsNonNegative | python/dglke/models/pytorch/tensor_models.py:254 | The accumulator, zero-initialised, stays non-negative under any number of steps |
| Adagrad.SyncStepsZero | python/dglke/models/pytorch/tensor_models.py:426-471 | A trace of zero gradients leaves the table unchanged |
| Adagrad.SyncStepsSnoc | python/dglke/models/pytorch/tensor_models.py:426 | Proof helper: updating with one more entry is one more step after the shorter update |
| Adagrad.CrossPart | python/dglke/models/pytorch/tensor_models.py:448-452 | The overflow part of a batch has as many indices as gradient rows, and no more than the batch |
| Adagrad.CrossPartAt | python/dglke/models/pytorch/tensor_models.py:447-452 | The overflow part of a batch holds, in order, exactly the positions whose index has its bit set, each with its own gradient row |
| Adagrad.CrossPartFits | python/dglke/models/pytorch/tensor_models.py:447-453 | The overflow part of a batch that fits the device table fits the authoritative table |
| Adagrad.MaskSelectRowMeanSq | python/dglke/models/pytorch/tensor_models.py:452 | `grad_sum[cpu_mask]` equals the mean squares of `grad_values[cpu_mask]` |
| Adagrad.CrossGlobalStep | python/dglke/models/pytorch/tensor_models.py:447-461 | The authoritative table's half of a cross-relation step keeps its shape |
| Adagrad.CrossGlobalStepIsStep | python/dglke/models/pytorch/tensor_models.py:450-461 | That half is one sparse step by the overflow part, whether the part is empty or not |
| Adagrad.CrossStep | python/dglke/models/pytorch/tensor_models.py:447-471 | A cross-relation step keeps both tables paired and the device table's shape |
| Adagrad.CrossSyncSteps | python/dglke/models/pytorch/tensor_models.py:426-471 | A cross-relation update keeps both tables paired and the device table's shape |
| Adagrad.CrossSyncStepsSnoc | python/dglke/models/pytorch/tensor_models.py:426 | Proof helper: a cross-relation update with one more entry is one more cross-relation step |
| Adagrad.CrossSyncSplits | python/dglke/models/pytorch/tensor_models.py:447-471 | With cross relations, the device table gets exactly the plain update. The authoritative table gets the plain update of the overflow parts, in addition and never instead |
| Adagrad.CrossSyncLocal | python/dglke/models/pytorch/tensor_models.py:462-471 | With cross relations the device table still receives every entry's full step |
| Adagrad.CrossSyncGlobal | python/dglke/models/pytorch/tensor_models.py:447-461 | With cross relations the authoritative table receives each entry's overflow part, in trace order |
| Adagrad.CrossParts | python/dglke/models/pytorch/tensor_models.py:426-452 | One overflow part per trace entry, none larger than its entry |
| Adagrad.CrossPartsFit | python/dglke/models/pytorch/tensor_models.py:447-453 | The overflow parts of a trace that fits the device table fit the authoritative table |
| Adagrad.CrossPartsPrefix | python/dglke/models/pytorch/tensor_models.py:426 | The overflow parts of a prefix of the trace are the prefix of its overflow parts |
| Adagrad.CrossSyncKeepsResident | python/dglke/models/pytorch/tensor_models.py:447-461 | Authoritative rows whose bit is clear are never touched by an update |
| Adagrad.SparseStepInPlace | python/dglke/models/pytorch/tensor_models.py:462-471 | The in-place accumulator add, gather, scale and row add leave the arrays equal to `SparseStep` of their old contents |
| Adagrad.CrossGlobalStepNonNegative | python/dglke/models/pytorch/tensor_models.py:447-461 | The overflow step keeps the authoritative accumulator non-negative |
| Adagrad.CrossGlobalStepInPlace | python/dglke/models/pytorch/tensor_models.py:447-461 | The in-place mask, select and step leave the authoritative arrays equal to `CrossGlobalStep` of their old contents |
| UpdateQueue.JobQueue.constructor | python/dglke/models/pytorch/tensor_models.py:476 | A new queue is empty |
| UpdateQueue.JobQueue.Put | python/dglke/models/pytorch/tensor_models.py:438 | `put` appends the job at the back |
| UpdateQueue.JobQueue.Get | python/dglke/models/pytorch/tensor_models.py:174 | `get` removes and returns the job at the front |
| UpdateQueue.Jobs | python/dglke/models/pytorch/tensor_models.py:426-438 | One request per trace entry, in order, each carrying that entry's gradient, and never a stop request |
| UpdateQueue.JobsFront | python/dglke/models/pytorch/tensor_models.py:435-438 | The first request for a trace is the request for its first entry |
| UpdateQueue.ApplyJobs | python/dglke/models/pytorch/tensor_models.py:173-194 | The worker's effect keeps the table's shape |
| UpdateQueue.Leftover | python/dglke/models/pytorch/tensor_models.py:173-177 | What the worker leaves on the queue: the jobs directly after the first stop request, or nothing when there is none |
| UpdateQueue.ApplyJobsCons | python/dglke/models/pytorch/tensor_models.py:173-194 | Proof helper: the worker applies the request at the front as one sparse step, then goes on with the rest |
| UpdateQueue.SyncStepsCons | python/dglke/models/pytorch/tensor_models.py:426-471 | Updating with a first entry and then a trace is one step followed by the trace's update |
| UpdateQueue.ApplyJobsSync | python/dglke/models/pytorch/tensor_models.py:173-194 | Draining a trace's requests from the queue equals the synchronous update of that trace, followed by whatever comes next |
| UpdateQueue.AsyncMatchesSync | python/dglke/models/pytorch/tensor_models.py:173-194 | A trace's requests followed by the stop request give exactly the synchronous update's table: no request is dropped or reordered |
| Embedding.CatAppend | python/dglke/models/pytorch/tensor_models.py:320 | A traced read's rows go at the end of the concatenation |
| Embedding.Cat | python/dglke/models/pytorch/tensor_models.py:487-490 | The concatenation has one row per row handed out |
| Embedding.CatAt | python/dglke/models/pytorch/tensor_models.py:487-490 | Row j of entry k sits right after the rows of the entries before k |
| Embedding.CatPrefix | python/dglke/models/pytorch/tensor_models.py:487-490 | The rows of the first m entries begin the concatenation |
| Embedding.CatEntries | python/dglke/models/pytorch/tensor_models.py:487-490 | Entry k's rows fill the concatenation from the end of the rows before it |
| Embedding.Grads | python/dglke/models/pytorch/tensor_models.py:427 | One gradient batch per trace entry, with the entry's indices and the gradient autograd attached to it |
| Embedding.Refresh | python/dglke/models/pytorch/tensor_models.py:305-312 | The refresh keeps the number of rows |
| Embedding.RefreshAt | python/dglke/models/pytorch/tensor_models.py:305-312 | After the refresh, a requested row whose bit is set holds the authoritative row, and every other row is unchanged |
| Embedding.RefreshRowsAt | python/dglke/models/pytorch/tensor_models.py:305-312 | The same, for every row at once |
| Embedding.ReadSeesAuthoritative | python/dglke/models/pytorch/tensor_models.py:305-313 | A read with cross relations returns the authoritative row at every position whose bit is set, and never a stale mirror |
| Embedding.BuildBitmap | python/dglke/models/pytorch/tensor_models.py:274-276 | The bitmap has one bit per row, set exactly for the rows named in `cross_rels` |
| Embedding.ExternalEmbedding.constructor | python/dglke/models/pytorch/tensor_models.py:247-260 | `num` rows of width `dim`, a zero accumulator, step zero, an empty trace, no cross relations and no queue |
| Embedding.ExternalEmbedding.SetupCrossRels | python/dglke/models/pytorch/tensor_models.py:273-279 | Cross relations are on, `g` is the authoritative table, and bit i is set exactly when i is in `cross_rels` |
| Embedding.ExternalEmbedding.NonCrossIdx | python/dglke/models/pytorch/tensor_models.py:281-284 | The requested indices whose bit is clear, in order and with repetitions, and exactly those values |
| Embedding.ExternalEmbedding.RefreshRows | python/dglke/models/pytorch/tensor_models.py:305-312 | The in-place refresh leaves the rows equal to `Refresh` of the old rows, and keeps the table valid |
| Embedding.ExternalEmbedding.Read | python/dglke/models/pytorch/tensor_models.py:291-323 | Returns the requested rows, after the refresh when cross relations are on. A traced read appends exactly one entry; an untraced read leaves the trace alone |
| Embedding.ExternalEmbedding.Record | python/dglke/models/pytorch/tensor_models.py:318-320 | A traced read's entry joins the end of the trace |
| Embedding.ExternalEmbedding.CurrEmb | python/dglke/models/pytorch/tensor_models.py:487-490 | An error exactly when the trace is empty. Otherwise it holds one row per row handed out, and entry k's rows start at `RowCount(trace[..k])`, the number of rows handed out before it |
| Embedding.ExternalEmbedding.LoadEmb | python/dglke/models/pytorch/tensor_models.py:401-412 | A NumPy array is copied into a new table; any other array becomes the table itself |
| Embedding.ExternalEmbedding.AttachGrad | python/dglke/models/pytorch/tensor_models.py:427 | Trace entry k now carries the given gradient, and nothing else changes |
| Embedding.ExternalEmbedding.ApplyStep | python/dglke/models/pytorch/tensor_models.py:462-471 | The device table becomes `SparseStep` of its old value |
| Embedding.ExternalEmbedding.ApplyCrossPart | python/dglke/models/pytorch/tensor_models.py:447-461 | The authoritative table becomes the cross-relation step's authoritative half of its old value, and the table stays valid |
| Embedding.ExternalEmbedding.EnqueueTrace | python/dglke/models/pytorch/tensor_models.py:426-438 | One request per trace entry is appended to the queue, in trace order |
| Embedding.ExternalEmbedding.ApplyCrossEntry | python/dglke/models/pytorch/tensor_models.py:440-471 | Both tables become `CrossStep` of their old values |
| Embedding.ExternalEmbedding.ApplyTrace | python/dglke/models/pytorch/tensor_models.py:426-471 | Without cross relations the table becomes `SyncSteps` of its old value over the trace's gradients |
| Embedding.ExternalEmbedding.ApplyTraceCross | python/dglke/models/pytorch/tensor_models.py:426-471 | With cross relations both tables become `CrossSyncSteps` of their old values. The device table gets exactly the plain update of the trace, and the authoritative table the plain update of its overflow parts |
| Embedding.ExternalEmbedding.ApplyCrossAt | python/dglke/models/pytorch/tensor_models.py:426-471 | Entry k, applied after the entries before it, extends the cross-relation fold by exactly that entry |
| Embedding.ExternalEmbedding.Update | python/dglke/models/pytorch/tensor_models.py:414-472 | The step goes up by one and the trace is emptied. With a queue: the requests are queued in order and neither table changes. Without one: the device table gets the trace's steps, and with cross relations the authoritative table gets the overflow parts' steps |
| Embedding.ExternalEmbedding.EndUpdate | python/dglke/models/pytorch/tensor_models.py:424-472 | The step counter goes up by exactly one and the trace is empty |
| Embedding.ExternalEmbedding.CreateAsyncUpdate | python/dglke/models/pytorch/tensor_models.py:474-476 | A fresh, empty queue is installed |
| Embedding.ExternalEmbedding.FinishAsyncUpdate | python/dglke/models/pytorch/tensor_models.py:482-484 | The stop request joins the back of the queue |
| Embedding.ServeJob | python/dglke/models/pytorch/tensor_models.py:173-194 | One turn of the worker takes the front request off the queue. A stop request leaves the table unchanged, which is where the worker's fold ends; any other request makes the table one sparse step of its old value by that request's gradient |
| UpdateQueue.LeftoverCons | python/dglke/models/pytorch/tensor_models.py:173-177 | Proof helper: the queue holds a stop request exactly when its front or its rest does, and what the worker leaves is decided at the front |
| Embedding.AsyncUpdate | python/dglke/models/pytorch/tensor_models.py:173-194 | The worker stops exactly when a stop request was queued. It leaves only what follows that request, and the table becomes `ApplyJobs` of its old value |
| Scenarios.MeanSqConstant | python/dglke/models/pytorch/tensor_models.py:440 | The mean square of four equal entries is the entry's square |
| Scenarios.TwoRowSingleStep | python/dglke/models/pytorch/tensor_models.py:426 | Proof helper: an update over a one-entry trace is that entry's sparse step |
| Scenarios.TwoRowTouched | python/dglke/models/pytorch/tensor_models.py:462-471 | In the worked example, rows 2 and 5 end with accumulators 1.0 and 4.0 and the scaled steps |
| Scenarios.TwoRowUntouched | python/dglke/models/pytorch/tensor_models.py:462-471 | In the worked example, every other row stays zero with a zero accumulator |
| Scenarios.ConstantRowStep | python/dglke/models/pytorch/tensor_models.py:462-471 | A zero row with a zero accumulator, stepped at learning rate 0.1 by four equal entries x, gets accumulator x*x and entries `-0.1*x/(sqrt(x*x)+1e-10)` |
| Scenarios.TwoRowUpdate | python/dglke/models/pytorch/tensor_models.py:440-471 | Ten zero rows of width 4, gradients of ones at row 2 and twos at row 5, learning rate 0.1. Afterwards the accumulator holds 1.0 and 4.0 there, the two rows hold `-0.1/(sqrt(1)+1e-10)` and `-0.2/(sqrt(4)+1e-10)`, and all else is zero |

## Left out

- The distance functions (`l2_dist`, `l1_dist`, `dot_dist`, `cosine_dist`, `extended_jaccard_dist`): floating-point geometry outside the table.
- `thread_wrapped_func`, the worker process, `join` and the blocking of `Queue(1)`: processes and concurrency. The worker is the method `AsyncUpdate`, called explicitly, and the queue is unbounded.
- `read_emb_from_disk`, `save`, `load`, `init` and `share_memory`: file I/O, random initialisation and shared memory.
- Devices: `.cuda(...)` and `.to(device)` moves are not modelled. `gpu_id` is carried in the queued requests only.
- Float32 arithmetic: values are reals, and `Sqrt` is a stand-in whose only property used is that it is never negative. Numeric closeness is not claimed.
- Adagrad.Sqrt: only non-negativity is stated. Adagrad's promise that a growing accumulator shrinks later steps is therefore not proved; only the accumulator's growth is (`SparseStepStrict`, `SyncStepsGrows`).
- Embedding.ExternalEmbedding.constructor: `th.empty` leaves the rows unspecified, so the contract says nothing about them. It also requires `dim > 0`. The source accepts `th.empty(num, 0)`, and a later update then puts a NaN mean into `state_sum`; rows of width zero are not modelled.
- Embedding.ExternalEmbedding.SetupCrossRels: the ids in `cross_rels` must lie in `[0, num)`. The source wraps negative ids from the end and raises an index error for ids of `num` or more; neither is modelled. It also requires the authoritative table to have `num` rows of width `dim`, its own arrays and a non-negative accumulator, none of which the source checks.
- Embedding.ExternalEmbedding.NonCrossIdx: the indices must lie in `[0, num)` and cross relations must be set up. Before `setup_cross_rels` the source raises an attribute error, because `cpu_bitmap` does not exist yet; that error path is not modelled.
- Embedding.ExternalEmbedding.Read: indices must lie in `[0, num)`. Negative indices, which torch counts from the end, are not modelled, and the `gpu_id` argument is dropped.
- Embedding.ExternalEmbedding.Update: every trace entry must carry a gradient. In the source a missing gradient raises an attribute error.
- Embedding.ExternalEmbedding.LoadEmb: the new rows must have the table's shape, and must not be the authoritative table's own array. Arrays of another shape are not modelled.
- Embedding.AsyncUpdate: as in the source, the worker ignores cross relations. Exceptions that the worker thread re-raises are not modelled.
- Autograd: the gradient is supplied by `AttachGrad`, not computed.
