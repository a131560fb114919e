# KLEE for TASE: a model in Dafny

TASE runs a program natively inside hardware transactions and falls back to a KLEE-based interpreter
wherever data is symbolic; memory words that hold symbolic data are marked with a poison pattern. This
project models the parts of that interpreter whose correctness is hard to see from one function body,
and proves what they are for.

The layers build on each other:

1. **Expressions** (`Bits`, `Exprs`, `Create`, `Meaning`, `LinearForm`, `NormalForm`, `ConstArray`, `Compare`,
   `UpdateLists`, `Cascade`).
   An expression of width `w` means a natural below `2^w` under an assignment of bytes to arrays. The
   smart constructors are a rewriting compiler, and every rewrite is proved to keep the meaning. They
   terminate by one linear weight that no rewrite increases; the same weight makes the visitors and the
   constraint set terminate. Everything they build is in linear normal form throughout. Reference-counted update lists live in an explicit node store.
2. **Memory** (`Memory`, `Poison`, `BareWrites`, `MemoryRuns`, `AddressSpace`, `MemoryManager`). `ObjectState` keeps a
   byte in up to three places (store, known symbolic expression, update list). `Byte(i, a)` is the value a reader must see under
   assignment `a`; every operation is specified by it. The poison layer adds TASE's two invariants, and a weaker one that reads
   rely on and that survives what breaks the first: in an unpoisoned word the store shows each byte,
   wherever it lives. Runs are runs of what the program does: a write and its poisoning, a read with the
   fast path, a read at a symbolic offset and its poisoning.
3. **Constraint sets** (`Visitor`, `Constraints`, `Solver`, `Evaluator`, `SeedInfo`, `Merge`, `MergePoison`,
   `UnionFind`).
   All claims are about sets of models.
4. **State machines** (`Distances`, `ProcessTree`, `MergeRegions`, `Bounceback`).

Properties that turned out false of the code are kept as results, with the exact condition under which
they hold:

- An aligned 16-bit symbolic write poisons its word without saving it first. What was written is read
  back if and only if no byte of the value folded to a constant other than the poison itself
  (`Poison.Store`, `Poison.LosslessExactly`, `Poison.BarePoisonLoses`).
- A write that is not followed by `applyPsnOnWrite` is not seen by the fast read, which trusts the store: a
  symbolic 16-bit value written to a fresh object reads back as zero (`BareWrites.StaleRead`). It is read back
  exactly if the store holds each of its bytes, or the written words happen to look poisoned
  (`BareWrites.WriteBare`). `merge` writes that way: when an object stays readable, and when the invariants
  survive, is said by `MergePoison.MergePoisoned`; `MergePoison.StaleMerge` is a merge that is not seen.
- The taint scan behind the fast multi-byte read skips a last word of which the buffer holds one byte only.
  At an even address nothing is skipped (`Poison.ScanExact`); at an odd one a symbolic last byte is read as
  raw poison, and `Poison.Read` says exactly when. `Poison.MissedRead` builds such an object and reads it.
- `applyPsnOnRead` writes no poison: it keeps the second invariant, and the first one exactly when every
  word was poisoned already; what was readable stays readable (`Poison.ApplyPsnOnRead`). A native store after it is not seen, in any word
  (`Poison.NativeStoreAfterRead`), whereas under both invariants a store to an unpoisoned word always is
  (`Poison.NativeStore`).
- `resolve` respects a limit of at least two. A limit of one is never noticed: the list has at most one entry
  exactly if no two objects may be hit (`AddressSpace.Resolve`, `AddressSpace.LimitOneExceeded`).
- The size bound on sums fails at width one exactly for true and a disjunction whose negation is larger by more
  than two (`LinearForm.BoolBound`), such as that of any two comparisons (`LinearForm.BoolGrows`).
- The constant-array optimisation of equalities keeps the meaning exactly if the index is in range or what lies
  out of range is not the constant (`ConstArray.OptimisedMeaning`, `ConstArray.OutOfRangeLost`).
- `UFManager::join` merges two classes exactly when its second argument is a representative (or there is
  nothing to do), and leaves constraints where they are looked up exactly when its first argument is one
  or there is nothing to move (`UnionFind.UFManager.Join`, `UnionFind.JoinSplits`). Filing a constraint under
  several arrays joins each with the next, so from the third array on constraints are misplaced exactly as
  `UnionFind.UFManager.UpdateStructures` says.
- Aborts that report poison beyond the first block are retried natively without bound (`Bounceback.PoisonUnbounded`),
  while all other retried aborts obey a logarithmic bound; and with bounceback off an abort right after a
  resume goes straight back to native code without interpreting anything (`Bounceback.Machine.Trap`).
- States released because a terminated state was the last to refer to a merge region become schedulable
  only with the update after the one that deletes it (`MergeRegions.Executor.UpdateStates`).
- `terminateState` accepts any live state, and the memory limit makes it kill any. Every state keeps its place
  exactly if the one killed was running or newly forked (`MergeRegions.Executor.Terminate`); a state waiting in a
  handler stays there although it is queued for deletion (`MergeRegions.KillWaiting`).
- The deterministic allocator checks its range in wrapping arithmetic: a granted object is inside the range
  exactly if address and size do not wrap (`MemoryManager.MemoryManager.Allocate`), and a request for 2^64 - 1 bytes
  is granted (`MemoryManager.WrappingRequest`). An alignment of 2^63 is never granted but resets the bump pointer.

## Model

| member | source | states |
|---|---|---|
| `Exprs.EvalBound` | klee/lib/Expr/Expr.cpp:429-550 | a well-formed expression of width w evaluates below 2^w under every assignment |
| `Create.Fold` | klee/lib/Expr/Expr.cpp:429-550 | folding two constants yields a well-formed constant of the operator's width |
| `Create.ConcatCreate` | klee/lib/Expr/Expr.cpp:669-690 | the result is well formed, as wide as both kids together, and weighs no more than the node asked for, which is why Concat and Extract may call each other; `Meaning.ConcatMeaning` says what it means |
| `Create.ExtractCreate` | klee/lib/Expr/Expr.cpp:721-748 | the result is well formed, of the width asked for, and weighs no more than the node |
| `Create.AndCreate` | klee/lib/Expr/Expr.cpp:921-935 | well formed, operand width, no heavier than the node |
| `Create.OrCreate` | klee/lib/Expr/Expr.cpp:937-951 | well formed, operand width, no heavier than the node |
| `Create.EqCreate` | klee/lib/Expr/Expr.cpp:1126-1205 | a well-formed Boolean, no heavier than the node although De Morgan and casts are pushed through; the constant-array optimisation is off, as by default |
| `Create.XorCreate` | klee/lib/Expr/Expr.cpp:953-968 | well formed, operand width, no heavier than the node |
| `Create.AddCreate` | klee/lib/Expr/Expr.cpp:797-843 | well formed, operand width, no heavier than the node; constants fold |
| `Create.SubCreate` | klee/lib/Expr/Expr.cpp:845-893 | well formed, operand width, no heavier than the node; constants fold |
| `Create.CompareCreate` | klee/lib/Expr/Expr.cpp:1226-1263 | a well-formed Boolean, no heavier than the node |
| `Create.SelectCreate` | klee/lib/Expr/Expr.cpp:638-666 | well formed, branch width, no heavier than the node |
| `Create.ReadCreate` | klee/lib/Expr/Expr.cpp:597-632 | well formed, element width, no heavier than index and updates |
| `Meaning.ConcatMeaning` | klee/lib/Expr/Expr.cpp:669-690 | a concatenation means the left value shifted past the right one, adjacent extracts fused or not |
| `Meaning.ExtractMeaning` | klee/lib/Expr/Expr.cpp:721-748 | an extract means that slice of the bits, also across the seam of a concatenation |
| `Meaning.UnaryMeaning` | klee/lib/Expr/Expr.cpp:751-787 | Not, Extract, ZExt, SExt and NotOptimized mean their operators |
| `Meaning.CastMeaning` | klee/lib/Expr/Expr.cpp:761-787 | extension to a smaller width truncates, to a larger one zero- or sign-extends |
| `Meaning.AndMeaning` | klee/lib/Expr/Expr.cpp:921-935 | bitwise conjunction, at width one too |
| `Meaning.OrMeaning` | klee/lib/Expr/Expr.cpp:937-951 | bitwise disjunction |
| `Meaning.XorMeaning` | klee/lib/Expr/Expr.cpp:953-968 | bitwise exclusive or |
| `Meaning.EqMeaning` | klee/lib/Expr/Expr.cpp:1086-1205 | one exactly if the operands are equal, through De Morgan, SExt, ZExt, Add and Sub |
| `Meaning.AddMeaning` | klee/lib/Expr/Expr.cpp:797-843 | the sum modulo 2^w, however constants are regrouped |
| `Meaning.SubMeaning` | klee/lib/Expr/Expr.cpp:845-893 | the difference modulo 2^w |
| `Meaning.MulMeaning` | klee/lib/Expr/Expr.cpp:895-919 | the product modulo 2^w |
| `Meaning.DivMeaning` | klee/lib/Expr/Expr.cpp:970-1000 | signed and unsigned quotient and remainder, and the Boolean short cuts, for nonzero divisors (and the model's convention for zero) |
| `Meaning.ShiftMeaning` | klee/lib/Expr/Expr.cpp:1002-1024 | shifts, with the Boolean special cases |
| `Meaning.CompareMeaning` | klee/lib/Expr/Expr.cpp:1226-1263 | signed and unsigned order, with the Boolean special cases |
| `Meaning.BinaryMeaning` | klee/lib/Expr/Expr.cpp:1026-1263 | every binary kind built through its constructor means its operator, for all well-widthed operands and assignments |
| `Meaning.SelectMeaning` | klee/lib/Expr/Expr.cpp:638-666 | a select means the branch its condition chooses, also when it becomes And or Or |
| `Meaning.ReadMeaning` | klee/lib/Expr/Expr.cpp:597-632 | a read means the value of the most recent write to that index, or the initial content |
| `Meaning.CreateRead` | klee/lib/Expr/Expr.cpp:597-632 | the loop over the update list computes that read |
| `Meaning.ConcatN` | klee/lib/Expr/Expr.cpp:693-702 | the loop places all kids side by side, the first most significant |
| `LinearForm.AddLinear` | klee/lib/Expr/Expr.cpp:797-843 | above width one a sum is no larger than 1 + both operands and stays in linear normal form |
| `LinearForm.SubLinear` | klee/lib/Expr/Expr.cpp:845-893 | the same for differences |
| `LinearForm.BoolBound` | klee/lib/Expr/Expr.cpp:1146-1152 | at width one, the exact pairs of operands for which a sum or difference exceeds the size bound |
| `LinearForm.BoolGrows` | klee/lib/Expr/Expr.cpp:1146-1152 | true minus the disjunction of any two comparisons, built by the constructors, is such a pair: it grows by two |
| `NormalForm.BinaryNormal` | klee/lib/Expr/Expr.cpp:669-1263 | every binary constructor applied to expressions that are in linear normal form at every node, update lists included, yields such an expression |
| `NormalForm.UnaryNormal` | klee/lib/Expr/Expr.cpp:721-787 | the same for the unary constructors |
| `NormalForm.CastNormal` | klee/lib/Expr/Expr.cpp:761-787 | the same for casts to any width, truncating ones included |
| `NormalForm.SelectNormal` | klee/lib/Expr/Expr.cpp:638-666 | the same for selects |
| `NormalForm.ReadNormal` | klee/lib/Expr/Expr.cpp:597-632 | the same for reads through an update list |
| `NormalForm.BuiltOffsetStaysSymbolic` | klee/lib/Core/Memory.cpp:468-469 | so a symbolic offset the program can build stays symbolic when a byte position is added, and the assertions of the symbolic byte accesses cannot fail |
| `ConstArray.TryConstArrayOpt` | klee/lib/Expr/Expr.cpp:1099-1124 | the loop builds the disjunction over the matching positions, or gives up beyond 100 of them |
| `ConstArray.DisjunctionMeaning` | klee/lib/Expr/Expr.cpp:1108-1121 | the disjunction is true exactly if the index is a position in range that holds the constant |
| `ConstArray.OptimisedMeaning` | klee/lib/Expr/Expr.cpp:1099-1124 | the exact condition under which the rewriting keeps the meaning |
| `ConstArray.OutOfRangeLost` | klee/lib/Expr/Expr.cpp:1099-1124 | an input for which it does not |
| `LinearForm.OffsetStaysSymbolic` | klee/lib/Core/Memory.cpp:517-532 | adding a constant to a symbolic offset in normal form leaves it symbolic, as the asserted precondition of a symbolic access wants |
| `Compare.CmpZero` | klee/lib/Expr/Expr.cpp:152-183 | comparison returns zero exactly on structurally equal expressions |
| `Compare.CmpFlip` | klee/lib/Expr/Expr.cpp:152-183 | swapping the arguments negates the result |
| `Compare.CmpTri` | klee/lib/Expr/Expr.cpp:152-183 | comparison is transitive, and zero composes only with zero, whatever the hash function |
| `Compare.Comparer.CompareFresh` | klee/lib/Expr/Expr.cpp:145-150 | the entry that clears the shared memo still returns the order |
| `Compare.Comparer.CompareMemo` | klee/lib/Expr/Expr.cpp:152-183 | with pointers, the memo of equal pairs and re-entrant clearing, the result is the order, and the memo holds only equal pairs |
| `Compare.Comparer.CompareKids` | klee/lib/Expr/Expr.cpp:176-179 | the loop over the kids returns the first difference |
| `Compare.Comparer.CompareContents` | klee/lib/Expr/Updates.cpp:159-173 | attributes and update lists in the order of the source |
| `Compare.Comparer.CompareNodes` | klee/lib/Expr/Updates.cpp:175-186 | walking two chains, stopping at shared structure, gives the order of the lists |
| `UpdateLists.StoreIsReachable` | klee/lib/Expr/Updates.cpp:64-136 | in every state the nodes that exist are exactly those some list reaches: no leak, no dangling pointer |
| `UpdateLists.BumpSound` | klee/lib/Expr/Updates.cpp:64-74 | taking a reference keeps every count equal to the pointers that reach the node |
| `UpdateLists.DeleteSound` | klee/lib/Expr/Updates.cpp:131-135 | deleting a node whose last reference went passes its reference on to the next node and keeps all counts |
| `UpdateLists.NewNode` | klee/lib/Expr/Updates.cpp:18-37 | a new node in front of the old head changes no old node in the end, counts included |
| `UpdateLists.UpdateStore.TryFreeNodes` | klee/lib/Expr/Updates.cpp:80-136 | frees what lost its last reference and only that; counts stay exact |
| `UpdateLists.UpdateStore.Construct` | klee/lib/Expr/Updates.cpp:64-74 | a new list on a node, or a copy of a list, has that content and changes no other list |
| `UpdateLists.UpdateStore.Destroy` | klee/lib/Expr/Updates.cpp:76-78 | what is left is exactly what other lists reach, with their contents unchanged |
| `UpdateLists.UpdateStore.Assign` | klee/lib/Expr/Updates.cpp:138-146 | assignment, self-assignment included, copies the content, frees exactly what became unreachable and changes no other list |
| `UpdateLists.UpdateStore.Extend` | klee/lib/Expr/Updates.cpp:148-157 | prepends one write to one list; lists that share its old nodes are unchanged |
| `Cascade.Release` | klee/include/klee/util/Ref.h:44-47 | releasing a reference deletes in turn whatever it kept alive, re-entering itself through the lists that reads hold, with every count exact throughout |
| `Cascade.DeleteSound` | klee/lib/Expr/Updates.cpp:39-47 | deleting an object hands what it owned to the call that deletes it, and all counts stay exact |
| `Cascade.SurvivorsExactly` | klee/lib/Expr/Updates.cpp:131-135 | once the calls under way have returned, exactly the objects some held reference reaches survive |
| `Cascade.Drop` | klee/lib/Expr/Updates.cpp:76-136 | destroying a list or dropping an expression leaves exactly what the other references reach, unchanged |
| `UpdateLists.UpdateStore.GetSize` | klee/lib/Expr/Updates.cpp:32-36 | the stored size is the length of the content |
| `Visitor.VisitMeaning` | klee/lib/Expr/ExprVisitor.cpp:74-316 | a visit with a sound visitor keeps the value of every expression |
| `Visitor.PreActionMeaning` | klee/lib/Expr/Constraints.cpp:86-193 | each replacement of the replace and XOR visitors keeps the value |
| `Constraints.EqualitiesEntries` | klee/lib/Expr/Constraints.cpp:361-380 | the map of equalities holds, for each expression, what the first constraint about it says |
| `Constraints.EqualitiesSound` | klee/lib/Expr/Constraints.cpp:361-380 | under any model of the constraints the map replaces expressions by equal ones |
| `Constraints.VisitIrreducible` | klee/lib/Expr/Constraints.cpp:175-193 | what a visit with the map of equalities returns holds nothing that the map could still replace |
| `Constraints.XorPassesMeaning` | klee/lib/Expr/Constraints.cpp:110-173 | the three XOR passes keep the value under every assignment |
| `Constraints.ConstraintManager.AddConstraint` | klee/lib/Expr/Constraints.cpp:460-561 | the models of the new set are those of the old set that satisfy the constraint, despite nested rewriting of a half-rebuilt list; the false-constraint assertion is reached only if no model exists |
| `Constraints.ConstraintManager.RewriteConstraints` | klee/lib/Expr/Constraints.cpp:268-295 | rewriting with a visitor sound for the kept constraint keeps the models, and reports whether anything changed |
| `Constraints.ConstraintManager.SimplifyExpr` | klee/lib/Expr/Constraints.cpp:361-383 | the simplified expression has the same value in every model |
| `Constraints.ConstraintManager.DoXorOptimization` | klee/lib/Expr/Constraints.cpp:243-252 | the optimisation keeps the models |
| `Solver.MustBeTrue` | klee/lib/Core/TimingSolver.cpp:64-82 | with an exact solver, true exactly if every model of the constraints satisfies the expression |
| `Solver.MustBeFalse` | klee/lib/Core/TimingSolver.cpp:84-87 | true exactly if no model does |
| `Solver.MayBeTrue` | klee/lib/Core/TimingSolver.cpp:89-96 | true exactly if some model does |
| `Solver.GetValue` | klee/lib/Core/TimingSolver.cpp:107-128 | a value the expression has in some model |
| `Memory.ObjectState.constructor` | klee/lib/Core/Memory.cpp:105-126 | a new concrete object reads as zero everywhere |
| `Memory.ObjectState.Symbolic` | klee/lib/Core/Memory.cpp:130-150 | a new symbolic object reads as its array |
| `Memory.ObjectState.MakeSymbolic` | klee/lib/Core/Memory.cpp:264-274 | afterwards every byte is what the base array holds and lives in the updates alone |
| `Memory.ObjectState.FlushRangeForRead` | klee/lib/Core/Memory.cpp:343-361 | flushing changes no byte's value |
| `Memory.ObjectState.FlushRangeForWrite` | klee/lib/Core/Memory.cpp:363-391 | the range lives in the updates alone afterwards; no byte changes its value |
| `Memory.ObjectState.GetUpdates` | klee/lib/Core/Memory.cpp:204-253 | creating the constant array lazily, with the oldest constant writes pulled into it, changes no byte |
| `Memory.BuildConstantArray` | klee/lib/Core/Memory.cpp:204-253 | the new array with the remaining writes reads like the old list at every index |
| `Memory.ObjectState.Read8` | klee/lib/Core/Memory.cpp:448-466 | the expression read means the byte |
| `Memory.ObjectState.Read8Symbolic` | klee/lib/Core/Memory.cpp:468-484 | at a symbolic offset it means the byte at the offset's value |
| `Memory.ObjectState.Write8` | klee/lib/Core/Memory.cpp:486-494 | exactly that byte changes |
| `Memory.ObjectState.Write8Expr` | klee/lib/Core/Memory.cpp:505-515 | exactly that byte changes, to the expression's value |
| `Memory.ObjectState.Write8AsExpr` | klee/lib/Core/Memory.cpp:496-503 | the byte becomes a known symbolic one, even if constant |
| `Memory.ObjectState.Write8Symbolic` | klee/lib/Core/Memory.cpp:517-532 | under each assignment exactly the byte at the offset's value changes |
| `Memory.ObjectState.Write` | klee/lib/Core/Memory.cpp:804-837 | a multi-byte write stores each byte of the value at its place in either byte order, and nothing else |
| `Memory.ObjectState.WriteConstant` | klee/lib/Core/Memory.cpp:839-861 | the same for constants of 16, 32 and 64 bits |
| `Memory.ObjectState.ReadBytes` | klee/lib/Core/Memory.cpp:586-599 | the byte-by-byte read is made of the object's bytes, and reading changes none |
| `Memory.ObjectState.WriteSymbolic` | klee/lib/Core/Memory.cpp:775-802 | each byte lands at offset plus place modulo 2^32, under every assignment |
| `Memory.ObjectState.ReadSymbolic` | klee/lib/Core/Memory.cpp:536-561 | each byte read is the one at offset plus place |
| `MemoryRuns.Step` | klee/lib/Core/Executor.cpp:4014-4035 | one operation as the program makes it, poisoning included, changes the byte map as it should and answers from it; exactly when a read misses a byte |
| `MemoryRuns.Execute` | klee/lib/Core/Memory.cpp:536-861 | over any run of writes with their poisoning and reads with their fast path, at constant and symbolic offsets, every read is made of what the operations before it left at the evaluated offsets, but for a missed last byte at an odd offset; with lossless writes that is the last write to each byte |
| `MemoryRuns.LosslessRun` | klee/lib/Core/Memory.cpp:662-664 | lossless writes leave the last write to each byte |
| `Poison.AllSettled` | klee/lib/Core/Memory.cpp:313-334 | both TASE invariants hold exactly when every word is settled |
| `Poison.HasTaint` | klee/lib/Core/Executor.cpp:4916-4926 | the scan returns true exactly if one of the words it visits holds the poison |
| `Poison.ScanExact` | klee/lib/Core/Executor.cpp:4916-4926 | at even addresses and sizes the scan sees exactly the words of the buffer |
| `Poison.Read` | klee/lib/Core/Memory.cpp:563-599 | on any object, every byte of a read is the stored one on the fast path and the object's otherwise; on a readable object that is the object's byte, except in the one odd-address case, where poison stands in its place |
| `Poison.RawIsFast` | klee/lib/Core/Memory.cpp:571-584 | where the fast path trusts the store of a readable object, the store is right, but for a missed byte |
| `Poison.TaseIsReadable` | klee/lib/Core/Memory.cpp:320-334 | both TASE invariants make an object readable |
| `Poison.ApplyPsnOnWrite` | klee/lib/Core/Memory.cpp:618-759 | makes the object readable again after a write for every alignment and width, and restores both invariants if the other words have them; changes no byte's value but those of a bare-poisoned word, touches no word outside the written range and makes no byte concrete |
| `Poison.Store` | klee/lib/Core/Memory.cpp:618-759 | write plus poisoning on a readable object: readable again, the invariants kept, every byte what write and poisoning leave, all other words untouched, and the symbolic bytes of the value not in the store |
| `Poison.LosslessExactly` | klee/lib/Core/Memory.cpp:662-664 | what they leave is the value, whatever was there, if and only if the write is lossless |
| `Poison.MissedRead` | klee/lib/Core/Executor.cpp:4916-4926 | the object and the odd-address read for which the fast path returns poison in place of a symbolic byte |
| `Poison.BarePoisonLoses` | klee/lib/Core/Memory.cpp:662-664 | a family of 16-bit values that is not lossless |
| `Poison.StoreSymbolic` | klee/lib/Core/Memory.cpp:618-640 | a symbolic-offset write plus poisoning keeps the invariants and stores the value |
| `Poison.ApplyPsnOnRead` | klee/lib/Core/Memory.cpp:601-616 | keeps every byte, the second invariant and readability; the first invariant holds exactly if all words were poisoned |
| `Poison.LoadSymbolic` | klee/lib/Core/Executor.cpp:4075-4077 | a read at a symbolic offset with its poisoning returns the bytes at the evaluated offset and keeps the object readable |
| `BareWrites.WriteBare` | klee/lib/Core/Memory.cpp:571-584 | a write without poisoning is read back exactly if the store holds each byte of it or the words look poisoned |
| `BareWrites.StaleRead` | klee/lib/Core/Memory.cpp:571-584 | a run in which the fast read returns the stale store |
| `Poison.NativeStore` | klee/lib/Core/Memory.cpp:325-333 | a store by native code is seen exactly if the byte was concrete, which under the invariants it is in every unpoisoned word; the exact condition for the invariants to hold afterwards |
| `Poison.NativeStoreAfterRead` | klee/lib/Core/Memory.cpp:601-616 | after a symbolic read was poisoned, native stores go unseen |
| `AddressSpace.InBoundsForMeaning` | klee/lib/Core/Memory.h:123-143 | the bounds check for several bytes is true exactly if the whole access lies in the object |
| `AddressSpace.InBoundsMeaning` | klee/lib/Core/Memory.h:117-134 | the bounds check is true exactly if the pointer falls into the object, empty objects and wrapped offsets included |
| `AddressSpace.ResolveConstant` | klee/lib/Core/AddressSpace.cpp:62-78 | finds the object that contains the address if there is one |
| `AddressSpace.ResolveOne` | klee/lib/Core/AddressSpace.cpp:80-168 | succeeds exactly if some object may contain the address, and returns such an object |
| `AddressSpace.ScanDown` | klee/lib/Core/AddressSpace.cpp:206-253 | the backward search misses no object below its start despite its early exit |
| `AddressSpace.ScanUp` | klee/lib/Core/AddressSpace.cpp:255-291 | the forward search misses none above |
| `AddressSpace.Resolve` | klee/lib/Core/AddressSpace.cpp:170-293 | lists only objects that may be hit, none twice; all of them unless it says incomplete, which with a solver that never fails happens only at the limit; at a limit of one the exact condition for it to be respected |
| `AddressSpace.LimitOneExceeded` | klee/lib/Core/AddressSpace.cpp:236-244 | a pointer and two objects for which a limit of one is exceeded |
| `MemoryManager.MemoryManager.Allocate` | klee/lib/Core/MemoryManager.cpp:93-149 | succeeds exactly if request, next address and wrapped end say so beforehand, and returns that address, aligned; objects stay disjoint with red zones exactly if the end does not wrap; failure leaves everything as it was except at alignment 2^63 |
| `MemoryManager.WrappingRequest` | klee/lib/Core/MemoryManager.cpp:117-126 | a request whose end wraps is granted wherever the bump pointer stands |
| `MemoryManager.AllocatedSpace` | klee/lib/Core/MemoryManager.cpp:93-149 | what was allocated is an address space as pointer resolution assumes it |
| `Evaluator.EvaluateMeaning` | klee/lib/Expr/ExprEvaluator.cpp:16-145 | evaluating under partial bindings keeps the value under every assignment that agrees with them |
| `SeedInfo.SeedInfo.FixByte` | klee/lib/Core/SeedInfo.cpp:126-150 | one byte is fixed and changed only if its old value contradicts what is fixed already |
| `SeedInfo.SeedInfo.PatchSeed` | klee/lib/Core/SeedInfo.cpp:60-164 | if constraints and condition have a common model, the patched seed is one with which the condition may be true; each changed byte was inconsistent with what had been fixed before it |
| `SeedInfo.PatchedSeedWorks` | klee/lib/Core/SeedInfo.cpp:152-163 | hence the final assertion cannot fail |
| `Merge.Conjoin` | klee/lib/Core/ExecutionState.cpp:313-320 | the conjunction of a suffix is true exactly where all its constraints are |
| `Merge.MergeLocals` | klee/lib/Core/ExecutionState.cpp:331-341 | each local equals A's where A's suffix holds and B's elsewhere |
| `Merge.MergeObject` | klee/lib/Core/ExecutionState.cpp:343-358 | each byte equals A's where A's suffix holds and B's elsewhere |
| `MergePoison.MergePoisoned` | klee/lib/Core/ExecutionState.cpp:343-358 | exactly when the TASE invariants, and readability, survive the merge of an object |
| `MergePoison.StaleMerge` | klee/lib/Core/ExecutionState.cpp:343-358 | a merge whose result the fast read does not see |
| `Merge.MergeConstraints` | klee/lib/Core/ExecutionState.cpp:360-364 | the rebuilt set has the models of the common constraints with either suffix |
| `Merge.ExecutionState.Merge` | klee/lib/Core/ExecutionState.cpp:208-367 | a successful merge has exactly the models of A or B, and on them A's or B's locals and bytes; a failed one changes nothing |
| `Merge.SplitModels` | klee/lib/Core/ExecutionState.cpp:234-247 | common part and suffix together are the original constraints |
| `Merge.ModelsChoose` | klee/lib/Core/ExecutionState.cpp:313-320 | on a model of B outside A's suffix the merged state shows B's values, on every model of A it shows A's |
| `UnionFind.UFManager.Create` | klee/lib/Expr/Expr.cpp:44-47 | a new array is alone in its class; nothing else changes |
| `UnionFind.UFManager.Find` | klee/lib/Expr/Expr.cpp:59-68 | returns the representative, terminates, and path compression changes nobody's representative |
| `UnionFind.UFManager.Join` | klee/lib/Expr/Expr.cpp:70-93 | both arguments get one representative, no constraint is lost or duplicated; exact conditions for merging the two classes and for keeping constraints at representatives |
| `UnionFind.CompressedRoots` | klee/lib/Expr/Expr.cpp:59-64 | compressing a path keeps the forest and all its roots |
| `UnionFind.HungRoots` | klee/lib/Expr/Expr.cpp:81-82 | hanging b below another root moves exactly the elements below b |
| `UnionFind.RootUnique` | klee/lib/Expr/Expr.cpp:59-68 | the representative depends on the parents alone |
| `UnionFind.JoinSplits` | klee/lib/Expr/Expr.cpp:78-82 | a forest in which hanging a non-representative separates it from its class |
| `UnionFind.UFManager.UpdateStructures` | klee/lib/Expr/Constraints.cpp:412-435 | all arrays of a constraint end in the class of the first, whose representative stores it, the only constraint added; only elements of their classes move, and only there; the exact condition for constraints to stay at representatives |
| `Distances.FixpointIsLeast` | klee/lib/Core/StatsTracker.cpp:741-795 | achieved costs that no rule improves are the least costs, recursion and cycles included |
| `Distances.DerivesIsRun` | klee/lib/Core/StatsTracker.cpp:741-795 | derived costs are exactly the lengths of runs of a machine with a call stack |
| `Distances.VisitReturn` | klee/lib/Core/StatsTracker.cpp:744-793 | one visit keeps every entry achievable, and either makes progress or shows the entry settled |
| `Distances.MinDistToReturn` | klee/lib/Core/StatsTracker.cpp:707-795 | the first fixpoint terminates with the least cost to a return for every instruction, and through every function |
| `Distances.VisitUncovered` | klee/lib/Core/StatsTracker.cpp:823-875 | the same for one visit of the second loop |
| `Distances.MinDistToUncovered` | klee/lib/Core/StatsTracker.cpp:798-876 | the second fixpoint terminates with the least cost to an uncovered instruction |
| `Distances.ComputeReachableUncovered` | klee/lib/Core/StatsTracker.cpp:660-876 | nonzero entries are lengths of shortest runs, zero says there is none, in both tables; the second one gives the shortest explorations of one machine that enters calls, returns and stops at an uncovered instruction |
| `Distances.DerivedExplored` | klee/lib/Core/StatsTracker.cpp:823-875 | a cost of the second table is the length of an exploration that enters and leaves callees |
| `Distances.ExploredDerived` | klee/lib/Core/StatsTracker.cpp:823-875 | an exploration is no shorter than the cost of the second table |
| `Distances.StackDistances` | klee/lib/Core/StatsTracker.cpp:878-899 | walking a call stack yields, for every frame, the least cost to uncovered code after it returns |
| `Distances.FrameStep` | klee/lib/Core/StatsTracker.cpp:638-658 | combining local and return distance is the least over both ways |
| `ProcessTree.LiveBelow` | klee/lib/Core/PTree.cpp:36-51 | every node of the tree has a live state below it |
| `ProcessTree.PruneUp` | klee/lib/Core/PTree.cpp:36-51 | upward pruning ends in a tree whose leaves are the live states |
| `ProcessTree.PTree.constructor` | klee/lib/Core/PTree.cpp:21-22 | the root is the leaf of the first state |
| `ProcessTree.PTree.Branch` | klee/lib/Core/Executor.cpp:1403-1414 | the leaf of the forked state becomes an inner node with a leaf for each of the two |
| `ProcessTree.PTree.Remove` | klee/lib/Core/PTree.cpp:36-51 | exactly the nodes above no remaining live state go |
| `ProcessTree.PTree.SelectState` | klee/lib/Core/Searcher.cpp:268-288 | for any random words the walk terminates at a live state, the one the successive bits lead to |
| `ProcessTree.WalkDown` | klee/lib/Core/Searcher.cpp:268-288 | the loop over `flips` and `bits` tosses each bit of each word once, highest first |
| `ProcessTree.EveryStateSelectable` | klee/lib/Core/Searcher.cpp:268-288 | for every live state there are coin flips that select it |
| `ProcessTree.RootAbove` | klee/lib/Core/PTree.cpp:26-34 | the walk starts above every node |
| `MergeRegions.Executor.ReadyOrHeld` | klee/lib/Core/MergeHandler.cpp:27-60 | each live state is either selectable or held, once, by exactly one handler |
| `MergeRegions.Executor.PauseState` | klee/lib/Core/Executor.cpp:3361-3371 | pausing cancels a pending resumption or is queued once |
| `MergeRegions.Executor.ContinueState` | klee/lib/Core/Executor.cpp:3373-3383 | resuming cancels a pending pause or is queued once |
| `MergeRegions.Executor.AddClosedState` | klee/lib/Core/MergeHandler.cpp:27-54 | the state waits in its handler, or goes away because a waiting one took it |
| `MergeRegions.Executor.Destroy` | klee/lib/Core/MergeHandler.cpp:56-74 | the end of a handler makes ready exactly the states it held |
| `MergeRegions.Executor.Open` | klee/lib/Core/SpecialFunctionHandler.cpp:331-344 | opening a region pushes a new empty handler |
| `MergeRegions.Executor.Branch` | klee/lib/Core/ExecutionState.cpp:143-149 | a forked state is inside every region of its parent |
| `MergeRegions.Executor.Close` | klee/lib/Core/SpecialFunctionHandler.cpp:346-366 | the last state to leave a region makes everyone held there ready; any other waits or is merged away; outer regions are not affected |
| `MergeRegions.Executor.Terminate` | klee/lib/Core/Executor.cpp:3385-3410 | a newly forked state is deleted at once, releasing what only it kept waiting, any other is queued for removal; all states keep their place exactly if it was newly forked or running |
| `MergeRegions.KillWaiting` | klee/lib/Core/Executor.cpp:3242-3271 | a run that terminates a waiting state and breaks the invariant |
| `MergeRegions.Executor.UpdateStates` | klee/lib/Core/Executor.cpp:3150-3176 | the searcher then holds exactly the states that were ready; states released by a deletion are queued for the next update |
| `Bounceback.BounceBound` | klee/lib/Core/Executor.cpp:703-720 | a run of unknown or other aborts bounces at most floor(log2(tran_max)) times |
| `Bounceback.BounceExact` | klee/lib/Core/Executor.cpp:703-720 | the bound is reached exactly if all those aborts allow a retry |
| `Bounceback.NextMaxBounds` | klee/lib/Core/Executor.cpp:711-718 | a retried abort at least halves the transaction limit, a poison abort puts it below 16, and nothing else can raise it |
| `Bounceback.PoisonUnbounded` | klee/lib/Core/Executor.cpp:716-718 | poison aborts beyond the first block bounce every time |
| `Bounceback.Machine.constructor` | klee/lib/Core/Executor.h:158-162 | bounceback is on only in mixed mode without single stepping |
| `Bounceback.Machine.InterpInternal` | klee/lib/Core/Executor.cpp:5439-5638 | an exit after a full pass has untainted registers in mixed mode; interpret-only mode never exits; an exit before the first pass happens in exactly one case |
| `Bounceback.Machine.Trap` | klee/lib/Core/Executor.cpp:4272-4302 | exactly when an abort bounces, exactly when it goes straight back, and what holds on return to native code |
| `Bounceback.Machine.TrapRun` | klee/lib/Core/Executor.cpp:4272-4302 | a run of traps bounces as often as the limits allow, hence within the bound |

## Left out

- Solver back ends, caching and independence: an exact oracle that may fail stands for them; timeouts are failures.
- LLVM instruction decoding, JIT dispatch, library models, process forking and semaphores: foreign calls.
- Floating-point instructions: thin wrappers over `APFloat`.
- KTest files: the writer stamps a version whose timestamps it does not emit, so there is no round trip to prove.
- `ImpliedValue.cpp`: its only use is behind an abort.
- `UFManager::destroy`: erasing shifts the indices arrays hold.
- Cheat constraints and the second union-find: a copy of the same logic; `addConstraint`'s call into the union-find is modelled by itself in `UnionFind`.
- `Create.EqCreate`: does not call the constant-array optimisation, which is off by default and not meaning-preserving; it is modelled by itself in `ConstArray`.
- The `visited` memo of `ExprVisitor` and the hash values of expressions: the memo only caches; comparison is proved for any hash function.
- `UpdateLists`: expressions are values there; what deleting a node sets off through the expressions it owns is modelled by itself in `Cascade`, on objects and references alone.
- Divisions by zero: the source never performs them; the model gives them a value so that evaluation is total.
- Wide integers: distances and weights are unbounded, while the source stores the way through a call in 32 bits.
- `MemoryManager.MemoryManager.Allocate`: the range and its red zone are assumed to end below 2^63, as user addresses do.
- Only 32-bit array indices and 64-bit pointers are modelled; poison words are two bytes.
- Copy-on-write in `getWriteable` and read-only objects: a merge writes the first state's objects in place; object states shared by both sides are skipped as in the source.
- Iteration order over sets and pointer-keyed maps is arbitrary in the model.
- The order of states inside a searcher, search heuristics and statistics.
- Native execution between traps: each pass of the interpreter loop takes what it finds as input, so the loop is covered for every finite number of passes.
- The non-deterministic allocator and fixed allocations: calls to `malloc`.
- `Poison.Read`: a big-endian target is not modelled, because TASE runs on x86 only.
- `Distances.ComputeReachableUncovered`: the statement about explorations assumes that a call has an instruction to resume at, as every call in LLVM does.
- `handleSymbolicOffset`, which replaces most reads at symbolic offsets by a constrained fresh variable: a solver query per possible address.
- `Memory.ObjectState.WriteSymbolic`: requires, as the asserted precondition of the byte-wise write does, that no summed offset folds to a constant; `NormalForm.BuiltOffsetStaysSymbolic` shows this of every offset the constructors can build, and `MemoryRuns` asks for no more than that.
- `Memory.ObjectState.ReadSymbolic`: has the same precondition for the same reason.
- `MergeRegions.Executor.AddClosedState`: whether two states merge is a parameter; what a merge does is proved in `Merge`.
