# A verified model of the NAVI Scheme

NAVI is a small R7RS Scheme written in C. This project models its hard parts in Dafny and proves what they promise.
`dafny verify dfyconfig.toml` checks all of it. Nothing here was executed.

The allocator stack

- `RbTheory.dfy`, `RbTree.dfy`, `RbRemoval.dfy`, `RbTraversal.dfy`: the intrusive red-black tree of `rbtree.c`.
  The methods work on nodes with left, right and parent links and a dummy root known by its colour. They are proved
  against functions on trees with a hole (a subtree and the frames around it), and the laws are proved about those.
  `Snap(S)` is the value of the heap at the nodes `S`, so each method states the whole heap that it leaves.
- `RbRuns.dfy`: whole runs of the tree as written.
- `SlabTree.dfy`, `Slab.dfy`: slabs in three address-ordered trees. The invariant `Valid` of `SlabCache` is what every
  run of allocations and releases keeps.

The memory manager

- `Gc.dfy`, `Scopes.dfy`, `Symbols.dfy`, `Collector.dfy`: mark and sweep over objects together with reference counts of
  scopes and the table of interned symbols. The invariant `Valid` of `Heap` ties them together, is kept by every
  operation (creation, change of a field, interning, binding, guarding, release, collection), and includes that a scope
  counts its holders exactly and that what is interned is in the heap list, so a run of any of these operations keeps
  it. References that swept macros, special forms and promises do not give back are recorded in `leaked`.
- `Cycles.dfy`: when marking ends. `Guards.dfy`: what C code must guard.

Reader and printer

- `Port.dfy`, `Reader.dfy`, `Printer.dfy`: the port with its one-character buffer, the reader and the writers, each
  proved against a function: `Syntax.dfy` says what a text reads as, `Printer.Show` what a datum is written as.
- `Literals.dfy`: what single texts read as and single data are written as, in terms of the characters themselves.
  `RoundTrip.dfy`: reading undoes writing. `ReadsBack.dfy`: exactly on which data. `Comments.dfy`: where block comments
  end.

The evaluator

- `Objects.dfy`: expressions are values, as in the original. `BigStep.dfy` is the reference: a direct evaluator that
  also says how deep evaluations outside tail position are nested. `Trampoline.dfy` is the code: tail positions return
  bounces, and a loop runs them. `TailCalls.dfy` proves that they agree, in both directions. `Evaluator.dfy` is the
  code on mutable scopes, proved to do what `Trampoline.dfy` says. `Forms.dfy`: what the special forms mean, and which
  are short for others. `Departures.dfy`: where that is not R7RS.

Smaller parts

- `Environment.dfy`, `Formals.dfy`: scopes as hash tables, chained lookup, and the extension of an environment.
- `Imports.dfy`, `ImportSets.dfy`, `Renaming.dfy`: import sets. `Fixnums.dfy`: tagged arithmetic.

## Where the code does not do what it is meant to do

- `rbtree.c:284` tests `is_root(n)`, but `n` may have climbed at line 241. `RbTheory.DefectAt` is the exact condition:
  the victim has a child and every step from it to the root is case 3. `RbRemoval.Remove` is the code as written, with
  equal black heights if and only if that does not happen; `RbTheory.TestOfTheWrongNode` is a tree where it does;
  `RbRemoval.RemoveCorrected` tests the node that was saved, and is right always. The slab layer uses the corrected
  removal. What follows the defect: `RbRuns.RunAscending` and `RunRedBlack` say what runs keep, `RbRuns.RedUnderRed` is a
  run of seven steps that ends in a red-red edge, and after the run `RbRuns.NullFollowed` a removal follows a null
  pointer. `RbTheory.RemoveSafe` says when one does not, and is all that `RbRemoval.Remove` asks for.
- `environment.c:1015-1016` sets the new name of a renaming before it unsets the old one, one renaming after the other.
  `Renaming.RenameIsSimultaneous` says exactly when that is the renaming of R7RS, `Renaming.ExchangeLoses` when not.
- `or` returns `#t`, not the value of the test, when a test that is not last decides (`eval.c:282-292`).
  `Departures.OrIsFirstTrue`: it gives the answer of R7RS if and only if the last test decides or the deciding value is
  `#t`; `Departures.OrTwoThree` is `(or 2 3)`. (`and` is right: `Departures.AndIsFirstFalse`.)
- After `=>` the value of the test is evaluated once more, as an expression (`eval.c:190-194`).
  `Departures.ArrowIsReceive`: every receiver gets what R7RS passes if and only if that value evaluates to itself;
  `Departures.ArrowSymbol` is a test whose value is an unbound symbol.
- A variable bound to the unspecified value is reported as unbound (`eval.c:465-469`). `Departures.VariableHasValue`: a
  bound variable has its value if and only if that is not the unspecified one; `Departures.UnspecifiedVariable` is
  `(begin (define x (if #f #f)) x)`.
- A block comment takes the character after each bar, and comments do not nest (`read.c:496-502`).
  `Comments.EndsAtOddBars`: it ends at the first odd number of bars in a row with `#` behind; `Comments.BlockComment`:
  that is right if and only if R7RS ends it there, or not at all if there is none. `Comments.TwoBars` and
  `Comments.NoNesting` are texts where it is not.
- A symbol is written byte by byte (`display.c:77-83`), which a string port refuses (`port.c:55-60`, `port.c:115-122`).
  `Printer.OutPort.Display`: writing to such a port succeeds if and only if no symbol but an empty one is in the datum;
  `RoundTrip.WriteSymbolToString` is `(write 'a (open-output-string))`.
- The empty bytevector is written without its parenthesis, symbols without bars, characters without regard to what
  delimits them, and a symbol that is a single dot is written like the dot of a tail. `ReadsBack.ReadsBackExactly` says
  exactly which data `read` gives back from what `write` wrote; `RoundTrip.EmptyBytevector` is one that it does not.
- `swap` (`rbtree.c:165-202`) is only called with a node and its predecessor. `RbRemoval.Swap`: it is right if and only
  if its second node is neither the parent nor the right sibling of the first.
- `navi_free` does not release the scope of a macro, a special form or a promise (`heap.c:149-151`).
  `Collector.LeaksNothing`: a sweep loses no reference if and only if it sweeps none of these; `Heap.GcCollect` says
  exactly what it loses.
- Marking does not end on a cycle (`heap.c:750-814`). `Cycles.MarkingEnds`: it ends if and only if no cycle is reached;
  `Cycles.PairInItself` is `set-cdr!` of a pair to itself. `Cycles.EdgeEnds` says which new references are harmless.
- A protected object is kept without what it refers to (`heap.c:837-857`). `Collector.Heap.NeededIsClosed`: what survives
  a collection refers only to what survives if and only if all that protected objects refer to does.
- `cond` does not guard the value of a test while the receiver after `=>` is evaluated (`eval.c:187-196`,
  `eval.c:235-253`). `Guards.EvalTest`: a collection in between frees it, as in
  `(cond ((list 1 2) => (begin (gc-collect) car)))`; `Guards.GuardedIsKept`: a guard would have kept it.
- `/` of the least fixnum by -1 is the least fixnum. `Fixnums.DivisionIsExact`: `/` is exact if and only if that does not
  turn the sign of the result; `Fixnums.LeastByMinusOne` is a list of arguments where it does.
- The first peek at the end of a port gives the character -1 (`port.c:261-271`), as `Port.PortPeekChar` says.

## Assumptions

- Marking never looks at the mark, so marking and collecting ask that no cycle is reached from a scope. Cycles elsewhere
  are collected. A collection also asks that what protected objects refer to is kept.
- A new object has its mark and its protect bit clear. A bounce is traced through its expression.
- What `malloc` returns for a new slab is a parameter: a page that overlaps no slab in use.
- Sizes are those of a machine with 64-bit pointers: a slab descriptor takes 48 of 4096 bytes.
- Text is ASCII, as in the fallback of `unicode.h`. Case folding is that of ASCII.
- Words of 64 and of 32 bits wrap around on overflow where the C standard leaves it open.

## Model

| member | source | states |
|---|---|---|
| RbTheory.PlugNoRedRed | rbtree.c:94-133 | a tree with a hole has a black root and no red-red edge after filling exactly when its surroundings and the filling allow it |
| RbTheory.PlugBalanced | rbtree.c:94-133 | and has equal black heights exactly when the surroundings expect the black height of the filling |
| RbTheory.InsertFixInOrder | rbtree.c:94-133 | the insertion loop keeps the in-order sequence |
| RbTheory.InsertFixRedBlack | rbtree.c:94-133 | it restores a red-black tree when the only possible fault is a red node under a red parent, and the equal black heights are kept |
| RbTheory.InsertOk | rbtree.c:85-134 | inserting at an empty link of a red-black tree gives a red-black tree whose in-order sequence has the new node at that place |
| RbTheory.InsertNodes | rbtree.c:85-134 | and exactly one more node |
| RbTree.Replace | rbtree.c:53-61 | the heap afterwards: the parent's link and the new child's parent, and nothing else |
| RbTree.RotateLeft | rbtree.c:63-72 | the heap afterwards is the rotation of the heap before; the loop and `if` of the original write in the same order |
| RbTree.RotateRight | rbtree.c:74-83 | the mirror image |
| RbTree.RotationShape | rbtree.c:63-83 | a rotation anywhere in a well-linked tree gives the rotated tree, well linked, under the same surroundings |
| RbTree.RbUncle | rbtree.c:38-44 | the root of the tree beside the parent, on whichever side of the grandparent the parent is |
| RbTree.Link | rbtree.c:88-92 | the new node hangs red in the empty link and the links are consistent |
| RbTree.InsertCase3 | rbtree.c:105-115 | parent and uncle black, grandparent red, on the linked heap |
| RbTree.InsertCase4 | rbtree.c:117-124 | the inner grandchild is rotated outwards |
| RbTree.InsertCase5 | rbtree.c:126-132 | recolouring and the outer rotation |
| RbTree.Insert | rbtree.c:85-134 | the method on linked nodes ends (the depth falls) with consistent parent and child links, the new node at its in-order place, and a red-black tree if it was one |
| RbRemoval.Swap | rbtree.c:165-202 | two nodes of a tree trade places and colours and nothing else changes, also when one is a child of the other and the code passes through a link of a node to itself, if and only if the second is neither the parent nor the right sibling of the first |
| RbRemoval.SwapExact | rbtree.c:165-202 | the same about the heap as a value: the tree with the two nodes exchanged is well linked exactly then |
| RbRemoval.RbSibling | rbtree.c:46-51 | the root of the tree beside a node |
| RbRemoval.RbLast | rbtree.c:145-152 | the rightmost node of a subtree |
| RbRemoval.SwapVictim | rbtree.c:208-209 | after the exchange with its predecessor a node has no right child, and the surroundings are those of the victim |
| RbTheory.VictimRedBlack | rbtree.c:206-209 | ignoring the order, the tree after the exchange is still red-black |
| RbTheory.VictimOrder | rbtree.c:206-209 | what is in front of and behind the victim is what was in front of and behind the node |
| RbTheory.RemoveFixOk | rbtree.c:215-281 | the removal loop takes one black level from the hole and leaves no red-red edge, in every case |
| RbTheory.RemoveFixInOrder | rbtree.c:215-281 | and keeps the in-order sequence |
| RbTheory.UnlinkOk | rbtree.c:211-285 | unlinking a victim leaves a black root and no red-red edge; black heights stay equal as written exactly when the defect does not strike, and always with the corrected test |
| RbTheory.UnlinkInOrder | rbtree.c:211-285 | the in-order sequence loses the victim and nothing else |
| RbRemoval.RemoveCase2 | rbtree.c:220-229 | on linked nodes |
| RbRemoval.RemoveCase4 | rbtree.c:245-252 | on linked nodes |
| RbRemoval.RemoveCase5 | rbtree.c:254-267 | on linked nodes |
| RbRemoval.RemoveCase6 | rbtree.c:269-279 | on linked nodes |
| RbRemoval.RemoveFixup | rbtree.c:215-281 | the loop on linked nodes ends and does what RemoveFix says; it returns where it stopped |
| RbRemoval.Remove | rbtree.c:204-286 | as written, on any tree, balanced or not, on which it follows no null pointer: consistent links and the sequence without the node; from a red-black tree also a black root, no red-red edge, and equal black heights if and only if the defect does not strike |
| RbRemoval.RemoveCorrected | rbtree.c:204-286 | with the test on `saved_n` instead of `n` the result is a red-black tree, always |
| RbTheory.RemoveTreeOk | rbtree.c:204-286 | the same about the tree as a value: removing a node of a red-black tree is balanced as written if and only if not DefectAt |
| RbTheory.RemoveInOrder | rbtree.c:204-286 | on any tree, red-black or not, the sequence loses the node and nothing else |
| RbTheory.NoRedRedRemoves | rbtree.c:211-285 | a removal from a tree with a black root and no red-red edge, whatever its black heights, follows no null pointer |
| RbTheory.InsertFour | rbtree.c:85-134 | what inserting the keys 2, 1, 3, 0 builds |
| RbTheory.TestOfTheWrongNode | rbtree.c:283-285 | a concrete tree, keys 2, 1, 3, 0, from which the code as written removes 1 and leaves unequal black heights, and the corrected test does not |
| RbRuns.ApplyAscending | rbtree.c:85-286 | each insertion by address, and each removal as written that follows no null pointer, keeps the address order |
| RbRuns.RunAscending | rbtree.c:85-286 | so every run as written does, balanced or not |
| RbRuns.RunRedBlack | rbtree.c:85-286 | until the defect strikes, every run as written keeps a red-black tree, and no removal from it follows a null pointer |
| RbRuns.RedUnderRed | rbtree.c:204-286 | a run of seven steps as written that ends in a red node under a red one: insert 0, 1, 2, 3, remove 2, insert 2, remove 3 |
| RbRuns.NullFollowed | rbtree.c:204-286 | a run of thirteen steps as written after which the removal of 5 follows a null pointer |
| RbTheory.HeightAtMost | rbtree.c:94-133 | a red-black tree is no higher than twice its black height, and its black height is at most log2(N+1) for N nodes |
| RbTheory.HeightBound | rbtree.c:94-133 | a red-black tree of N nodes has height at most 2 log2(N+1) |
| RbTraversal.RbFirst | rbtree.c:136-143 | the first node of the in-order sequence of a subtree |
| RbTraversal.RbNext | rbtree.c:154-163 | the next node in order, or none after the last |
| RbTraversal.ForEach | rbtree.h:96-97 | the iteration visits the in-order sequence exactly |
| SlabTrees.SlabTree.FindSlab | slab.c:179-192 | finds the slab that covers an address if and only if there is one, and looks at no more than 2 log2(N+1) nodes |
| SlabTrees.Narrow | slab.c:184-187 | an address below a slab can only be found to its left, one past its end only to its right |
| SlabTrees.SlabTree.FindLink | slab.c:110-122 | the empty link at which the address belongs |
| SlabTrees.SlabTree.SlabInsert | slab.c:108-125 | the tree stays a red-black tree in address order and gains exactly the slab |
| SlabTrees.SlabTree.SlabRemove | slab.c:127-130 | the tree stays a red-black tree in address order and loses exactly the slab |
| SlabAllocator.SlotsCount | slab.c:71-74 | the slots of a slab are as many as it is meant to hold |
| SlabAllocator.SlotsBound | slab.c:71-74 | and lie behind its descriptor and inside its bounds |
| SlabAllocator.NewFreeListOk | slab.c:76-83 | the free list of a new slab has every slot once |
| SlabAllocator.InitSingle | slab.c:76-83 | the loop builds that list, last slot first |
| SlabAllocator.PopOk | slab.c:153-155 | the head of a free list was not live, and making it live keeps free lists and live slots complementary |
| SlabAllocator.PushOk | slab.c:213-216 | putting a live slot back keeps them so |
| SlabAllocator.LiveSlotsApart | slab.c:158-172 | live slots lie inside a slab and never overlap |
| SlabAllocator.SlabCache.constructor | slab.c:56-69 | an empty cache, with objects of at least 16 bytes and however many of them fit a slab, satisfies the invariant |
| SlabAllocator.SlabCache.NewSlab | slab.c:95-106 | a slab on a fresh page, all of whose slots are free, in none of the trees |
| SlabAllocator.SlabCache.GetSlab | slab.c:132-144 | a slab with a free slot; a new one only when partial and empty are empty |
| SlabAllocator.SlabCache.SlabPop | slab.c:146-164 | the slot handed out was not live before |
| SlabAllocator.SlabCache.Move | slab.c:165-169 | a slab goes from its tree to another, and the two other trees are as before |
| SlabAllocator.SlabCache.Alloc | slab.c:158-172 | the invariant of the cache holds again: in_use is the capacity in full, strictly between in partial, 0 in empty, the trees are disjoint, and exactly one slot that was not live is live |
| SlabAllocator.SlabCache.FindSlab | slab.c:194-202 | the full or partial slab that covers an address, exactly |
| SlabAllocator.SlabCache.Free | slab.c:204-226 | the invariant holds again and exactly the slot is no longer live; an address in no full or partial slab is reported |
| Cycles.MarkingEnds | heap.c:750-814 | marking from an object ends if and only if it reaches no cycle, and then no deeper than there are objects |
| Cycles.CycleGoesOn | heap.c:750-814 | on a cycle no depth is enough |
| Cycles.EndsInTime | heap.c:750-814 | without one, the objects not yet on the way are |
| Cycles.PairInItself | list.c:129-139 | the failing input: `set-cdr!` of a pair to itself |
| Cycles.EdgeEnds | heap.c:750-814 | with one more reference marking still ends if and only if it ended at both objects and the second does not reach the first |
| GcMarking.GcMarkObj | heap.c:750-814 | marking from a value that reaches no cycle ends and adds marks to exactly the objects that there are paths to |
| GcMarking.EdgesAreFields | heap.c:750-814 | what is traced, without the tracing function: an object refers to exactly what its fields point to, of a builtin procedure only the first, and to the name of a procedure |
| GcMarking.ReachesByChain | heap.c:750-814 | so an object is reached exactly when a chain of such pointers leads to it |
| ScopeCounting.ScopeList.ScopeRef | internal.h:676-680 | one holder more |
| ScopeCounting.ScopeList.MakeScope | environment.c:65-79 | a new scope with one holder, which itself holds the enclosing scope |
| ScopeCounting.ScopeList.ScopeUnref | internal.h:669-673 | one holder less: every count is again exactly the number of holders, so that a scope is freed exactly when nothing holds it |
| ScopeCounting.ScopeList.ScopeFree | heap.c:335-346 | the release goes on along the enclosing scopes, and ends |
| ScopeCounting.FreedCounted | heap.c:335-346 | taking a scope without holders out of the list leaves the counts right but for the enclosing scope |
| ScopeCounting.AddedCounted | environment.c:65-79 | adding one keeps them right |
| Collector.FilterKeeps | heap.c:837-857 | what a sweep keeps is what was in the list and is spared |
| Collector.Heap.Unlink | heap.c:850-853 | removing in the middle of the list uses the last object that was kept, and only when there is one |
| Collector.Heap.NaviFree | heap.c:134-164 | the counter falls by one, and thunks, bounces and procedures release their scopes; macros, special forms and promises do not |
| Collector.Heap.Drop | heap.c:850-854 | an object leaves the list and is freed; exactly what it holds and does not release is added to the leaked references |
| Collector.Heap.SweepOne | heap.c:842-855 | one turn of the loop: the object stays, unmarked, or is freed with its exact leak |
| Collector.LeaksNothing | heap.c:134-164 | a sweep leaks nothing if and only if every object that it frees releases all that it holds |
| Collector.GivesBack | heap.c:134-164 | and that is so of an object if and only if it is not a macro, a special form or a promise |
| Collector.Heap.GcSweep | heap.c:837-857 | keeps exactly the marked, protected and symbol objects in their order with all marks clear, keeps the counter equal to the length of the list, leaves every scope count equal to its holders, and leaks exactly what the freed objects do not release |
| Collector.Heap.GcMarkEnv | heap.c:816-827 | marks what the symbols, values and guards of a scope reach; no cycle may be reached from them |
| Collector.Heap.GcMark | heap.c:829-835 | marks exactly what some active scope reaches; no cycle may be reached from one |
| Collector.RootedEdge | heap.c:829-835 | what is rooted keeps what it refers to rooted |
| Collector.RootedByChain | heap.c:816-835 | an object is rooted exactly when a chain of pointers leads to it from what an active scope binds or guards |
| Collector.Heap.NeededByChain | heap.c:837-857 | what a collection must keep is protected, a symbol, or at the end of such a chain, and nothing else |
| Collector.Heap.RootsSurvive | heap.c:816-857 | what a scope binds or guards is rooted, and so is what a field of a rooted object points to |
| Collector.KeptIsClosed | heap.c:837-857 | a set that has all that is rooted, and with each other object what that refers to, refers to nothing outside |
| Collector.Heap.NeededIsClosed | heap.c:837-857 | so what survives refers only to what survives if and only if what protected objects refer to survives |
| Collector.Heap.GcCollect | heap.c:861-866 | a collection keeps exactly the rooted, protected and symbol objects, in order, the whole invariant of heap, scopes and symbol table, and every interned symbol; what scopes bind and guard is in the list afterwards, and what a field of a rooted object points to; cycles that no scope reaches are collected; the leaked references grow by exactly what the swept objects do not release |
| Collector.Heap.RegisterObject | heap.c:243-248 | the object is at the head of the list and counted |
| Collector.Heap.NewObject | heap.c:459-504 | a new object holds its scopes, is in the list and the graph, and the invariant holds |
| Collector.Heap.SetField | list.c:129-139 | a pair, vector or other object gets any new value in a field, itself included, and the invariant holds |
| Collector.Heap.Protect | internal.h:631-636 | any object is protected and the invariant holds |
| Collector.Heap.MakeSymbol | heap.c:311-325 | the interned symbol of a name, or exactly one new object that is interned, and the invariant holds |
| Collector.Heap.NewScope | environment.c:73-79 | the invariant holds and the caller holds the new scope and the dynamic one |
| Collector.Heap.DynamicNewScope | environment.c:81-87 | likewise for a new dynamic scope |
| Collector.Heap.EmptyScope | environment.c:158-164 | a scope without an enclosing one |
| Collector.Heap.ReleaseEnv | internal.h:690-694 | the invariant holds after an environment is released, with all that is freed on the way |
| Collector.Heap.Bind | environment.c:106-118 | the symbol is bound to the value, all other bindings are as before, and the invariant holds |
| Collector.Heap.Guard | heap.c:712-721 | guarding keeps the invariant |
| Collector.Heap.Unguard | heap.c:723-729 | removing a guard keeps the invariant |
| Guards.Unrooted | heap.c:816-835 | what no object refers to and no scope holds is not rooted |
| Guards.EvalTest | eval.c:235-253 | the value of the test of a clause with `=>` is freed if evaluating its receiver collects |
| Guards.GuardedIsKept | eval.c:308-325 | a guarded value is kept |
| Collector.Heap.ChainAlive | heap.c:816-866 | every object in the heap list, so every survivor of a collection, has the scope it holds and all scopes around that active, and all that they bind is in the list |
| Collector.Heap.ScopesAlive | internal.h:668-694 | the scopes of a listed thunk, bounce or procedure are active and counted once for each reference |
| Collector.Heap.CountIsHolders | internal.h:668-694 | a scope is active exactly when something holds it, and counts its child scopes, objects, handles and leaked references exactly |
| Collector.Heap.SymbolsAreUnique | heap.c:231-325 | in any state that a run of interning, collection and the rest can reach, two interned symbols are the same object if and only if their names are equal, and a collection keeps both |
| Ports.Port.BufferChar | port.c:212-220 | the next character is in the buffer, or the end has been seen |
| Ports.Port.PortReadChar | port.c:246-259 | delivers the characters of the string in order, once each, and then the end-of-file object for ever |
| Ports.Port.PortPeekChar | port.c:261-271 | consumes nothing; at the end the first peek gives the character -1 and later ones the end-of-file object |
| Reader.PeekChar | read.c:36-42 | the next character or EOF, consuming nothing, also at the end |
| Reader.ReadChar | read.c:52-58 | the next character or EOF, consuming it |
| Reader.PeekFirstChar | read.c:68-74 | skips exactly the white space in front |
| Reader.ReadUntil | read.c:192-217 | reads up to and without the first character that stops it; the end of the file stops it or is an error |
| Reader.ReadUnum | read.c:143-154 | the value of the longest run of digits, modulo 2^64 |
| Reader.ReadFixnum | read.c:156-190 | sign and digits as a fixnum |
| Reader.ReadSymbolUntilTerminal | read.c:266-289 | the symbol that Syntax.ReadSymbol describes |
| Reader.ReadSymbolUntilPipe | read.c:560-564 | the symbol between bars |
| Reader.ReadCharacter | read.c:316-359 | a single character, a hexadecimal code that is below 128 in 32 bits, a name, or an error |
| Reader.ReadBoolean | read.c:453-464 | the letter read before and at most four more characters |
| Reader.SkipBlock | read.c:496-502 | a block comment, as the code delimits it |
| Comments.EndsAtOddBars | read.c:496-502 | for every text, a comment ends at the first `#` behind an odd number of bars in a row, and not at all if there is none |
| Comments.EndsAtFirst | read.c:496-502 | so it ends at the first bar with a sharp sign behind it if and only if an odd number of bars in a row ends there |
| Comments.NestedAtFirst | read.c:496-502 | R7RS, section 2.2, ends it there if and only if no comment begins inside |
| Comments.BlockComment | read.c:496-502 | for every text, the code agrees with R7RS if and only if R7RS ends the comment at the first odd run of bars, or not at all if there is none |
| Comments.AgreesAtFirst | read.c:496-502 | if one of the two conditions on the first closing mark holds, the code agrees with R7RS if and only if the other does too |
| Comments.BothWrong | read.c:496-502 | a text on which neither holds, and the two mistakes make up for each other |
| Comments.TwoBars | read.c:496-502 | a text with two bars at its end, which the code reads on from |
| Comments.NoNesting | read.c:496-502 | a comment in a comment, whose end the code takes for that of the outer one |
| Reader.ReadSharpBang | read.c:426-451 | line comments, `#!eof` and the two fold-case directives |
| Reader.ReadList | read.c:369-414 | the list that Syntax.ReadList describes, consuming exactly its text |
| Reader.ListDot | read.c:381-394 | a symbol that begins with a dot, or the tail of the list and its parenthesis |
| Reader.ReadVector | read.c:416-419 | the cars of the list that is read |
| Reader.ReadBytevec | read.c:421-424 | the same, when each is a byte |
| Reader.ReadSharp | read.c:466-510 | the dispatch on the character after `#` |
| Reader.Read | read.c:517-579 | navi_read ends with the datum, the rest of the text and the fold-case setting that Syntax.Read describes, or with an error where that fails |
| Printer.OutPort.WriteCstr | port.c:298-307 | appends a C string, on either kind of port |
| Printer.OutPort.WriteByte | port.c:273-277 | appends a byte if and only if the port takes bytes; otherwise it is an error |
| Printer.OutPort.WriteSymbol | display.c:77-83 | appends a name if and only if the port takes bytes or the name is empty |
| Printer.OutPort.WriteChar | display.c:28-40 | appends the name, the code in hexadecimal, or the character |
| Printer.OutPort.WriteCdr | display.c:42-60 | appends the rest of a list up to its parenthesis, dotted or not, or a part of that where a symbol cannot be written |
| Printer.OutPort.WriteVector | display.c:85-103 | appends the elements with spaces between them, likewise |
| Printer.OutPort.WriteBytevec | display.c:105-123 | likewise, without the closing parenthesis when there are none |
| Printer.OutPort.Display | display.c:201-205 | appends the external representation of a datum on a port that takes bytes always, and on a string port if and only if no symbol but an empty one is in it; otherwise it fails with a part written |
| RoundTrip.DecimalValue | display.c:13-19 | the digits that are written are worth the number |
| RoundTrip.NumTrip | read.c:143-190 | and are read back as that number |
| RoundTrip.NamedBack | read.c:291-304 | the names in the table of characters are distinct, so each leads back to its own entry |
| RoundTrip.CharTrip | read.c:316-359 | the text of a character literal is read as that character if and only if it is plain |
| RoundTrip.SymbolTrip | read.c:266-289 | a plain symbol is read back, at the outer level and as an element of a list |
| RoundTrip.CdrTrip | display.c:42-60 | the list reader undoes the list writer, on proper and dotted lists |
| RoundTrip.VectorTrip | display.c:85-103 | the vector reader undoes the vector writer |
| RoundTrip.BytevecTrip | display.c:105-123 | so does the bytevector reader, when there is an element |
| RoundTrip.Trip | read.c:517-579 | each kind of datum, with what may follow it |
| RoundTrip.ReadShown | display.c:42-123 | for every readable datum, reading what was written gives the datum and consumes exactly that text |
| ReadsBack.ReadLaw | read.c:517-579 | from text with bars only inside of tokens navi_read gives a datum with bare symbols only and leaves such text; and what it leaves weighs more than the text by the single dots that the datum needs, a weight being the open parentheses less the closed ones less the single dots |
| ReadsBack.ListLaw | read.c:369-414 | likewise read_list, and by one more for the parenthesis at its end |
| ReadsBack.ShowLaw | display.c:42-123 | what is written in front of a text takes no more weight off it than the dots of the datum, and less if it has a fault: an open bytevector, a character cut short, a single dot as an element |
| ReadsBack.Miss | display.c:42-123 | a datum without such a fault that is still not readable is not what its text is read as, nor the first element of a list that begins with it |
| ReadsBack.ReadsBackExactly | display.c:42-123 | for every datum: reading what was written gives it back, consuming exactly that text, if and only if it is readable, that is, all fixnums are in range, all characters are ASCII but for parentheses, vertical tab and form feed, all symbols are plain and none is a single dot as an element, no bytevector is empty, and nothing is unspecified |
| ReadsBack.WriteThenRead | read.c:517-579 | the same through the ports and methods, on both kinds of output port: writing succeeds if and only if the port takes bytes or there is no symbol, and then the datum is read and the port stands at what followed if and only if the datum is readable |
| RoundTrip.WriteSymbolToString | port.c:115-122 | the failing input: writing a symbol to a string port |
| RoundTrip.EmptyBytevector | display.c:109-112 | the empty bytevector is written as `#u8(` and does not read back |
| Literals.NamedCharacter | read.c:291-304 | each of the nine names of R7RS, section 6.6, reads as its own code, which is written by that name |
| Literals.BareCharacter | read.c:316-327 | one character after the backslash is that character, unless it delimits |
| Literals.BareWritten | display.c:28-40 | a character of ASCII without a name is written bare |
| Literals.HexCharacter | read.c:330-343 | a hexadecimal code in small or capital digits reads as its character below 128 and is an error above |
| Literals.HexWritten | display.c:28-40 | a character above 127 is written by its hexadecimal code |
| Literals.NumberReads | read.c:143-175 | a numeral to base 2, 8, 10 or 16, with a sign or without, in small or capital digits, is worth the number that it is the numeral of |
| Literals.DecimalReads | read.c:522-524 | and so reads as that number |
| Literals.SignedDecimalReads | read.c:563-571 | also with a sign |
| Literals.RadixReads | read.c:487-492 | and with `#b`, `#o` or `#x` |
| Literals.DecimalWritten | display.c:13-19 | fixnums are written as decimal numerals |
| Literals.Booleans | read.c:453-464 | `#t` and `#true`, `#f` and `#false`, and how the two are written |
| Literals.Quotes | read.c:528-541 | the quotes are lists of `quote`, `quasiquote`, `unquote` or `unquote-splice` and the datum |
| Literals.BarSymbol | read.c:558-562 | whatever stands between bars is a symbol |
| Literals.LineComment | read.c:552-554 | a line comment is skipped, also in a list |
| Literals.DroppedDatum | read.c:495-497 | a datum after `#;` is dropped |
| Literals.DroppedBlock | read.c:498-504 | so is a block comment |
| Literals.FoldCase | read.c:426-451 | the directives turn the folding of case on and off |
| Literals.FoldsLetters | read.c:26-34 | folding changes the capital letters of ASCII to the small ones and nothing else |
| Literals.Terminals | read.c:109-112 | a token ends at white space and at parentheses |
| Literals.EndOfText | read.c:555-556 | at its end a text reads as the end-of-file object, and an open list is an error |
| Literals.UnknownSharp | read.c:509-511 | a number sign before any other character is an error |
| Literals.ListWritten | display.c:42-60 | a list is written as its elements with spaces between them, and a dot and a tail if it is not proper, in parentheses |
| Literals.VectorWritten | display.c:85-103 | a vector likewise, after `#` |
| Literals.BytevecWritten | display.c:105-123 | a bytevector likewise, after `#u8`, and without the parenthesis at its end if it is empty |
| Literals.Atoms | display.c:77-83 | symbols as they are, `()`, `#!eof`, and nothing for the unspecified value |
| BigStep.EvalKeeps | eval.c:436-491 | the answer of direct evaluation does not depend on the bound on its recursion |
| Forms.FormUse | eval.c:398-434 | a use of a special form evaluates its name, checks its operands and does the form |
| Forms.FormArities | eval.c:51-292 | how many operands each form takes |
| Forms.InnermostWins | environment.c:42-53 | the innermost scope that binds a variable decides |
| Forms.QuoteIs | eval.c:118-121 | quote |
| Forms.LambdaIs | eval.c:16-31 | a procedure has the environment in which its lambda expression is evaluated; formals that are not symbols are an error |
| Forms.IfIs | eval.c:255-268 | only `#f` selects the alternative, and without one the value is unspecified |
| Forms.BeginIs | eval.c:51-61 | all but the last expression are evaluated before it |
| Forms.SetIs | environment.c:389-401 | `set!` changes the binding that the variable had beforehand, which must exist |
| Forms.DefineIs | environment.c:209-216 | a definition binds in the innermost scope |
| Forms.DefinitionIsLambda | environment.c:218-230 | `(define (name . formals) . body)` leaves the same answer and bindings as `(define name (lambda formals . body))`, for all formals and bodies, and the same errors |
| Forms.DefinedThenCalled | environment.c:218-230 | after a definition, a call runs the body in a new scope inside the environment of the definition |
| Forms.SeesItsScope | environment.c:218-230 | so `(begin (define (name) y) (name))` is the value of `y` there |
| Forms.FromTheLeft | eval.c:365-379 | arguments are evaluated from the left |
| Forms.BodySees | environment.c:133-146 | a body sees its formals, and all else as where the procedure was made |
| Forms.CallIs | eval.c:398-434 | a call of a procedure |
| Forms.BuiltinCallIs | eval.c:308-323 | a call of a procedure written in C |
| Forms.ProcedureArity | eval.c:327-333 | as many arguments as formals, or with a dotted tail at least as many |
| Forms.AndIsIf | eval.c:270-280 | `(and a . rest)` means `(if a (and . rest) #f)` |
| Forms.CondIsIf | eval.c:235-253 | `(cond (test . body) . clauses)` means `(if test (begin . body) (cond . clauses))` |
| Forms.ElseIsBegin | eval.c:235-253 | `(cond (else . body) . clauses)` is `(begin . body)` |
| Forms.LetIsLambda | environment.c:327-386 | a `let` of any number of variables and constants is a call of a lambda expression |
| Forms.LetStarIsDefines | environment.c:327-386 | `(let* ((x e) ...) . body)` means `(let () (define x e) ... . body)` |
| TailCalls.EvalFollows | eval.c:436-479 | one call of _eval agrees with direct evaluation, or bounces to an expression that has the rest of the answer |
| TailCalls.SequenceFollows | eval.c:51-61 | begin and bodies |
| TailCalls.IfFollows | eval.c:255-268 | if |
| TailCalls.AndFollows | eval.c:270-280 | and, in which a test that fails gives `#f` |
| Departures.OrIsFirstTrue | eval.c:282-292 | `or` gives the answer of R7RS, section 4.2.1, if and only if the last operand decides or the deciding value is `#t`; otherwise it gives `#t` with the same bindings |
| Departures.OrTwoThree | eval.c:282-292 | the failing input `(or 2 3)` |
| Departures.AndIsFirstFalse | eval.c:270-280 | `and` always gives the answer of R7RS |
| Departures.CallAgain | eval.c:187-196 | the call that is built after `=>` passes the value of the value of the test |
| Departures.ArrowReceives | eval.c:187-196 | a value that evaluates to itself is received as R7RS has it |
| Departures.ArrowIsReceive | eval.c:187-196 | every receiver gets what R7RS passes if and only if the value of the test evaluates to itself |
| Departures.SelfEvaluating | eval.c:436-491 | as all values but symbols and pairs do |
| Departures.ClauseReceives | eval.c:187-196 | the same for a clause, whose receiver is an expression |
| Departures.ArrowSymbol | eval.c:187-196 | the failing input: a test whose value is an unbound symbol |
| Departures.VariableHasValue | eval.c:465-469 | a bound variable has its value if and only if that is not the unspecified value, and is an error otherwise |
| Departures.UnspecifiedVariable | eval.c:465-469 | the failing input `(begin (define x (if #f #f)) x)` |
| TailCalls.OrFollows | eval.c:282-292 | or, in which a test that holds gives `#t` and not its value unless it is last |
| TailCalls.CondFollows | eval.c:235-253 | cond |
| TailCalls.ClauseFollows | eval.c:188-196 | clauses, with `=>` as the code has it |
| TailCalls.LetFollows | environment.c:327-386 | let and let* |
| TailCalls.ProcedureFollows | eval.c:365-383 | calls of procedures |
| TailCalls.FormFollows | eval.c:308-325 | all special forms |
| TailCalls.TrampolineIsSound | eval.c:481-491 | when the loop ends, direct evaluation ends with the same value and bindings, or both in an error, and nothing is nested deeper than the C stack allowed |
| TailCalls.TrampolineIsFlat | eval.c:481-491 | when direct evaluation ends, the loop ends with the same answer on a stack as deep as expressions outside tail position are nested, and runs out of any shallower one: a tail call takes no stack |
| Evaluator.Interpreter.NaviEval | eval.c:481-491 | the loop on an interpreter with mutable scopes does what Trampoline.Run says |
| Evaluator.Interpreter.Eval | eval.c:436-479 | likewise for _eval |
| Evaluator.Interpreter.EvalCall | eval.c:398-434 | likewise; special forms are values that a symbol is bound to |
| Evaluator.Interpreter.EvalArgs | eval.c:365-379 | the arguments are evaluated from the left |
| Evaluator.Interpreter.NaviApply | eval.c:308-363 | arity, extension of the environment of the procedure, and its body |
| Evaluator.Interpreter.ScmBegin | eval.c:51-61 | the last expression is bounced, the others are evaluated in order |
| Evaluator.Interpreter.ScmCond | eval.c:235-253 | the first clause whose test holds |
| Evaluator.Interpreter.ScmLet | environment.c:369-386 | one new scope |
| Evaluator.Interpreter.LetExtend | environment.c:327-353 | definitions are evaluated and bound in order |
| Evaluator.Interpreter.ScmDefine | environment.c:209-239 | a variable or a procedure in the innermost scope |
| Evaluator.Interpreter.ScmSet | environment.c:389-401 | the binding that was found before the value was computed is changed |
| Evaluator.Interpreter.EnvBinding | environment.c:42-53 | the innermost scope that binds a symbol |
| Evaluator.Interpreter.ExtendEnvironment | environment.c:133-146 | a new scope with the bindings of Formals.Bindings |
| Formals.BindAllBinds | environment.c:133-146 | only the new scope changes, by exactly the bindings of formals to actuals, the last of equal formals counting |
| Formals.FormalGetsActual | environment.c:138-140 | with distinct formals each gets its own argument |
| Formals.TailGetsRest | environment.c:141-144 | a dotted tail gets the list of the arguments that are left |
| Environments.ContentsAt | environment.c:18-35 | the 64 buckets stand for one finite map, and a symbol is looked for in its own bucket only |
| Environments.ContentsChange | environment.c:106-131 | a change of one bucket changes the map at that symbol only |
| Environments.HashScope.ScopeLookup | environment.c:24-35 | finds the one binding of a symbol if and only if the map has it |
| Environments.HashScope.ScopeSet | environment.c:106-118 | updates the map |
| Environments.HashScope.ScopeUnset | environment.c:120-131 | removes the symbol from the map, and says whether it was there |
| Environments.EnvBinding | environment.c:42-53 | lookup along a chain of scopes is lookup in the maps overriding one another, innermost last |
| Imports.ImportAll | environment.c:148-156 | the map of one scope overrides that of another |
| Imports.KeepListed | environment.c:939-971 | only is restriction and except is subtraction |
| Imports.ImportPrefixed | environment.c:987-1000 | prefix renames every key |
| Imports.ImportRenames | environment.c:1002-1019 | rename sets each new name and then unsets the old one, or fails at a name that is not bound |
| Imports.ImportLibrary | environment.c:895-926 | the exports of a library, renamed or not, in order, or an error if the library does not bind one |
| Imports.ExportedAt | environment.c:895-926 | importing a library succeeds if and only if it binds all that it exports; a name is then bound if and only if there is an export by it, to the object of the last one |
| Imports.GetImportEnv | environment.c:1025-1040 | a fresh scope with exactly the map that the nested import set denotes, or an error if it denotes none; it ends by nesting depth |
| Imports.NaviImport | environment.c:1042-1053 | the imports of a list in order, up to the first error |
| ImportSets.OnlyDenotes | environment.c:939-953 | `only` has exactly the bindings that the set inside has and its list names, and is an error exactly when that set is |
| ImportSets.ExceptDenotes | environment.c:955-971 | `except` has exactly those that its list does not name |
| ImportSets.PrefixDenotes | environment.c:987-1000 | `prefix` has exactly the names that are the prefix in front of a name of the set inside |
| ImportSets.RenameDenotes | environment.c:1002-1019 | `rename` does the renamings of its list from the left |
| ImportSets.RenameOneAt | environment.c:1012-1016 | each takes the old name away and gives its binding to the new one, unless they are the same |
| ImportSets.LibraryDenotes | environment.c:1025-1040 | any other set is the name of a library, and has its exports |
| ImportSets.ExportNames | environment.c:918-922 | an export is a name, or a name in the library and the name that it is exported by |
| ImportSets.LastImportWins | environment.c:1042-1053 | after importing a list of sets a name has the binding of the last set that has it |
| Imports.OnlyAndExcept | environment.c:939-971 | only and except of the same names are disjoint and make up the whole |
| Imports.PrefixAt | environment.c:987-1000 | a prefixed name is bound exactly when the name is, to the same object |
| Imports.PrefixTwice | environment.c:987-1000 | prefixes compose |
| Imports.OnlyOfPrefix | environment.c:939-1000 | only of prefixed names is the prefix of only |
| Renaming.OrderlyIsSimultaneous | environment.c:1002-1019 | orderly renamings, among them those to fresh and distinct names, done one by one are the simultaneous renaming of R7RS, section 5.2 |
| Renaming.DisorderLoses | environment.c:1002-1019 | others lose a binding |
| Renaming.RenameIsSimultaneous | environment.c:1002-1019 | so the code does what R7RS says if and only if no new name is its own or a later old name |
| Renaming.ExchangeLoses | environment.c:1002-1019 | exchanging two names is such a failing input |
| Symbols.SymbolTable.SymbolLookup | heap.c:231-241 | the interned symbol of a name, if and only if there is one |
| Symbols.SymbolTable.Intern | heap.c:311-317 | adds one symbol, in its own bucket |
| Symbols.SymbolTable.InternedAreUnique | heap.c:231-325 | symbols in the table are the same object exactly when their names are equal |
| Fixnums.PlusIsSum | macros.h:111-112 | tagged addition keeps the tag and is exact modulo 2^63 |
| Fixnums.MinusIsDifference | macros.h:113-114 | so is subtraction |
| Fixnums.TimesIsProduct | macros.h:115-116 | and multiplication |
| Fixnums.DivideIsQuotient | macros.h:117-118 | division drops the fraction; the one quotient that does not fit wraps around |
| Fixnums.QuotientIs | macros.h:117-118 | the quotient is the one number whose remainder is smaller than the divisor and is 0 or has the sign of the dividend |
| Fixnums.DivideTruncates | macros.h:117-118 | what the word of a division holds leaves such a remainder, but for the least fixnum by -1 |
| Fixnums.ArithmeticFold | arithmetic.c:8-17 | the fold, with its type checks and the trap on a zero divisor, on words |
| Fixnums.FoldIsExact | arithmetic.c:8-50 | folding `+`, `-` or `*` over fixnums is the exact fold modulo 2^63, whatever the partial results |
| Fixnums.ExactFolds | arithmetic.c:8-61 | the exact folds are the sum, the first number less the sum of the others, the product, and the first number divided once by the product of the others |
| Fixnums.FewArguments | arithmetic.c:19-61 | the procedures on no argument and on one |
| Fixnums.QuotientFold | arithmetic.c:52-61 | folding `/` is the exact fold, or that with the other sign after an odd number of divisions of the least fixnum by -1 |
| Fixnums.QuotientsAreExact | arithmetic.c:52-61 | so it is exact if and only if the sign did not turn or the result is 0 |
| Fixnums.ZeroTraps | arithmetic.c:52-61 | it traps if and only if a divisor is 0 |
| Fixnums.DivisionIsExact | arithmetic.c:52-61 | both for `/` of any number of fixnums, one included |
| Fixnums.LeastByMinusOne | macros.h:117-118 | the failing input: the least fixnum divided by -1 |
| Fixnums.ArithIsExact | arithmetic.c:19-50 | `+`, `-` and `*` of any number of fixnums give the exact result if and only if it is a fixnum |
| Fixnums.FoldPairs | arithmetic.c:73-85 | comparison of neighbours from the left, up to the first that fails |
| Fixnums.PairsAreAll | arithmetic.c:87-104 | a comparison of fixnums is true if and only if it holds of every argument and every later one |
| Fixnums.ComparisonsAre | arithmetic.c:87-104 | each of the five comparisons, by what it says of every argument and every later one |

## Left out

- SlabAllocator.SlabCache.Free: asks for a live slot or an address in no full or partial slab; another address in one of these, such as a slot that is free, would corrupt its free list.
- SlabTrees.SlabTree.SlabRemove: uses the removal with the corrected test: after the one as written a tree may not be balanced, and a later removal may follow a null pointer, as RbRuns.NullFollowed shows.
- SlabAllocator.SlabCache.Move: uses that removal too.
- SlabAllocator.SlabCache.Alloc: uses the removal with the corrected test, because the trees of the code as written can lose their balance.
- GcMarking.GcMarkObj: traces a bounce through its expression alone; the C case shares that of pairs and takes the word behind it, a scope, for an object.
- Collector.Heap.GcCollect: asks that no scope reaches a cycle, on which the C code does not end, and that what protected objects refer to is kept.
- Collector.Heap.Bind: scopes hold their bindings as a list here; the hash table is in the module Environments.
- Reader.Read: string literals and `##` end in an outcome of their own and are not described further.
- Reader.ReadSharp: `##` ends in an outcome of its own: it reads a name and looks it up in the environment.
- Evaluator.Interpreter.NaviEval: nesting and bounces are bounded by parameters, because programs need not end; TailCalls.TrampolineIsFlat says which bounds do.
- Evaluator.Interpreter.EvalCall: macros, case-lambda, escapes and parameter objects are not among the values.
- Evaluator.Interpreter.NewScope: scopes are never freed here; that a scope in use is not freed is proved in the module Collector.
- Imports.ImportLibrary: finding and loading a library is a parameter, and so is what its environment binds; the form of library names is left out.
- Imports.GetImportEnv: the reference counts of the scopes that it makes are not modelled.
- Writing string literals: `write` does not escape them, and the buffer of their reader grows from a size that is still 0.
- Mixing reads of bytes and characters on one port, which share a buffer.
- The byte counter and the threshold of the collector: the sizes added and subtracted differ for strings and bytevectors.
- Objects that capture an environment, and the doubly linked free lists, which are switched off.
- Exceptions, `longjmp`, continuations, quasiquote, `case`, `let-values`, `delay` and `force`.
- Files, standard input and output, the command line, clocks, and everything that needs ICU.
- `quotient`, `remainder`, the numeric and type predicates, and simple list, vector and string procedures, which are easy.
