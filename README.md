# indicator: a verified model of the sliding-window extremum core

This project models the discrete core of the Java technical-analysis library
`indicator` in Dafny and proves its properties. The core has four parts:

- **`base.Tree` / `base.Node`**: an unbalanced binary search tree over numeric keys.
  Equal keys go left on insert. Removing a node with two children copies its
  in-order successor's key into it and splices the successor out.
  (`node.dfy`, `shapes.dfy`, `tree.dfy`)
- **`TrendIndicators.max` / `min`**: the moving maximum and minimum. They drive the
  tree through a circular buffer of `period` slots. **`TrendIndicators.since`** counts
  the steps since the value last changed. (`trend.dfy`)
- **The structural helpers of `Helper`**: size checks, shifts, sign and part
  extraction, and the element-wise arithmetic with its size checks.
  **`VolumeIndicators.obv`**: the on-balance volume. (`helper.dfy`, `volume.dfy`)
- **The signal combinators `AllStrategy` and `SeparateStrategy`** over the
  three-valued `Action`. (`strategy.dfy`)

The tree is a class with a `root` field over `Node` objects whose `value`,
`left` and `right` fields are updated in place. A ghost `Shape` mirrors the
heap, and a zipper context `Ctx` stands for the path from a subtree to the
root. `Valid()` says three things:

- the heap matches the shape;
- no node occurs twice;
- every key is at least every key of its left subtree and at most every key of its right subtree.

`Keys()` is the multiset of keys.

`max`/`min` are proved against the window they promise. After step `i`:

- the tree's key multiset equals the multiset of the last `period` inputs;
- buffer slot `j % period` holds input `j` for every index `j` in the window;
- `result[i]` is the maximum (minimum) of that window.

Keys are integers: a double rounded half-up to six decimal places and scaled
by 10^6. This is the value `Tree.compare` compares, so `Compare` on integers is
exact. The model follows `compare`'s rounding rather than a raw comparison of
doubles. Elsewhere a double is a `real`. A `RuntimeException`, an index
exception or a returned `null` becomes `None` (or `false` for the size check).

## Model

| member | source | states |
|---|---|---|
| Nodes.Node.New | src/main/java/base/Node.java:14-17 | a new node holds the given key and has no children, so every insert hangs a leaf |
| Trees.Compare | src/main/java/base/Tree.java:53-64 | the result is -1, 0 or 1; it is negative exactly when the first key is smaller and 0 exactly when the keys are equal |
| Trees.Tree.New | src/main/java/base/Tree.java:17-19 | a new tree is valid, has a null root and holds no keys |
| Trees.Tree.Insert | src/main/java/base/Tree.java:22-50 | the new shape is `InsertLeaf` of the old one: one fresh leaf holding `v` hangs on the first empty link of the walk that goes left where `v` is at most the key (so equal keys go left) and right where it is greater; the old shape is the new one with that leaf cut off, so every existing node keeps its key and links; the tree stays valid and the key multiset gains exactly one `v` |
| Trees.Tree.Graft | src/main/java/base/Tree.java:34-48 | linking the new leaf into the empty left or right link where the walk stopped gives a valid tree equal to `InsertLeaf` of the old shape, with one more `v` and one more node |
| Trees.Tree.SingleKeyTree | src/main/java/base/Tree.java:25-28 | a valid tree whose keys are exactly `{v}` is one leaf holding `v` at the root, so an insert into an empty tree makes the new node the root |
| Trees.Tree.Remove | src/main/java/base/Tree.java:67-88 | returns true exactly when `v` was a key; exactly one occurrence of `v` leaves the key multiset; the tree stays valid and ordered and gains no node; when `v` is found, the removed subtree root is the first node holding `v` on the search path (`SearchPath`) and the new shape is the old one with just that subtree replaced by its root deleted; when `v` is absent the shape, root and node set are unchanged, so no link or key moves |
| Trees.Tree.Find | src/main/java/base/Tree.java:68-85 | the search reaches a node exactly when `v` is a key; that node holds `v`, `parent` is its parent in the tree (null at the root), and every node above it on the path went left at a key greater than `v` and right at a key less than `v` (`SearchPath`), so it is the first node holding `v` that the walk meets |
| Shapes.SearchPathElements | src/main/java/base/Tree.java:71-85 | in an ordered tree, off the search path of `x` no node holds `x`: `x` is a key of the whole tree exactly when it is a key of the subtree the search has reached, which is why falling off the tree means `x` is absent |
| Trees.Tree.RemoveNode | src/main/java/base/Tree.java:111-138 | the node's subtree is replaced by that subtree with its root removed; the tree stays valid with no new node; a node with at most one child keeps its key |
| Trees.Tree.CopyKey | src/main/java/base/Tree.java:121 | after the successor is spliced out, writing its key into the node gives a valid tree equal to the subtree with its root removed |
| Trees.Tree.Splice | src/main/java/base/Tree.java:122-137 | a node with at most one child is replaced by that child (or null), through the root or the parent's link; the tree stays valid and ordered |
| Trees.Tree.Relink | src/main/java/base/Tree.java:132-136 | the parent link that pointed at a non-root node now points at its only child, and the rest of the path to the root is intact |
| Trees.Tree.MinNode | src/main/java/base/Tree.java:141-155 | null exactly for an empty subtree; otherwise the node reached from the subtree's root by following left links to the end (`Leftmost`), with no left child and the least key; its parent is null exactly when the subtree's root has no left child, and otherwise holds it as left child |
| Trees.Tree.MaxNode | src/main/java/base/Tree.java:158-172 | null exactly for an empty subtree; otherwise the node reached from the subtree's root by following right links to the end (`Rightmost`), with no right child and the greatest key; its parent is null exactly when the subtree's root has no right child, and otherwise lies in the subtree and holds it as right child |
| Trees.Tree.Min | src/main/java/base/Tree.java:91-98 | `None` exactly for an empty tree; otherwise a key present in the tree that is at most every key |
| Trees.Tree.Max | src/main/java/base/Tree.java:101-108 | `None` exactly for an empty tree; otherwise a key present in the tree that is at least every key |
| Shapes.InsertLeafElements | src/main/java/base/Tree.java:22-50 | the top-down insert adds exactly one occurrence of the new key to the multiset |
| Shapes.InsertLeafNodes | src/main/java/base/Tree.java:22-50 | the top-down insert adds exactly the new node; a key equal to the root's goes into the left subtree, leaving the right one as it was |
| Shapes.InsertLeafOrdered | src/main/java/base/Tree.java:34-48 | the top-down insert keeps every ordered tree ordered |
| Shapes.InsertLeafPlug | src/main/java/base/Tree.java:31-48 | hanging the leaf in a hole reached by the walk of `insert` (left when at most, right when greater) is the top-down insert on the whole tree |
| Shapes.LinkLeft | src/main/java/base/Tree.java:132-133 | pointing a parent's left link at a subtree makes the path context wired to that subtree and changes no key |
| Shapes.LinkRight | src/main/java/base/Tree.java:134-136 | pointing a parent's right link at a subtree makes the path context wired to that subtree and changes no key |
| Shapes.MinKeyIsLeast | src/main/java/base/Tree.java:149-154 | in an ordered tree the leftmost key is one of the keys and is at most every key |
| Shapes.MaxKeyIsGreatest | src/main/java/base/Tree.java:166-171 | in an ordered tree the rightmost key is one of the keys and is at least every key |
| Shapes.RemoveMinElements | src/main/java/base/Tree.java:113-120 | splicing out the leftmost node removes exactly its key from the multiset |
| Shapes.RemoveMinUnique | src/main/java/base/Tree.java:113-120 | splicing out the leftmost node introduces no node and keeps nodes distinct |
| Shapes.RemoveMinOrdered | src/main/java/base/Tree.java:113-120 | splicing out the leftmost node keeps the tree ordered |
| Shapes.DeleteRootElements | src/main/java/base/Tree.java:111-138 | removing a subtree's root removes exactly that root's key from the multiset |
| Shapes.DeleteRootShape | src/main/java/base/Tree.java:111-138 | removing a subtree's root introduces no node and keeps the subtree duplicate-free and ordered |
| Shapes.SuccessorOrdered | src/main/java/base/Tree.java:112-121 | copying the successor's key into a two-child node keeps left ≤ node ≤ right |
| Shapes.InOrderFacts | src/main/java/base/Tree.java:34-47 | the in-order walk visits exactly the key multiset, and in an ordered tree it is non-decreasing |
| TrendIndicators.WindowStart | src/main/java/indicator/TrendIndicators.java:215-217 | the first index of the window ending at `i` is 0 or `i - period + 1`, and never before `i - period + 1` |
| TrendIndicators.SeqMaxIsGreatest | src/main/java/indicator/TrendIndicators.java:208-224 | the maximum of a non-empty window is one of its values and at least all of them |
| TrendIndicators.SeqMinIsLeast | src/main/java/indicator/TrendIndicators.java:227-244 | the minimum of a non-empty window is one of its values and at most all of them |
| TrendIndicators.WindowSlide | src/main/java/indicator/TrendIndicators.java:213-217 | the window multiset after step `i` is the previous one plus `values[i]`, minus `values[i - period]` once `i >= period` |
| TrendIndicators.SlotReused | src/main/java/indicator/TrendIndicators.java:215-218 | the slot evicted at step `i` is the one written at step `i - period` |
| TrendIndicators.SlotDistinct | src/main/java/indicator/TrendIndicators.java:218 | fewer than `period` steps apart, two steps write different buffer slots |
| TrendIndicators.MaximumIsSeqMax | src/main/java/indicator/TrendIndicators.java:220 | a value is a window maximum exactly when it equals `SeqMax` of the window |
| TrendIndicators.MinimumIsSeqMin | src/main/java/indicator/TrendIndicators.java:240 | a value is a window minimum exactly when it equals `SeqMin` of the window |
| TrendIndicators.MaximumOfKeys | src/main/java/indicator/TrendIndicators.java:220 | the greatest key of a tree holding the window's multiset is the window's maximum |
| TrendIndicators.MinimumOfKeys | src/main/java/indicator/TrendIndicators.java:240 | the least key of a tree holding the window's multiset is the window's minimum |
| TrendIndicators.Track | src/main/java/indicator/TrendIndicators.java:213-217 | insert then evict leaves the tree holding exactly the keys of the window ending at `i` (a multiset equality), and the tree stays valid |
| TrendIndicators.Slide | src/main/java/indicator/TrendIndicators.java:218 | after the write, every slot of the new window holds its input |
| TrendIndicators.Advance | src/main/java/indicator/TrendIndicators.java:213-218 | one step keeps tree, buffer and window in step (`Holds` at `i + 1`) |
| TrendIndicators.RecordMax | src/main/java/indicator/TrendIndicators.java:220 | the tree is non-empty when read, and `result[i]` becomes the maximum of the window ending at `i` |
| TrendIndicators.RecordMin | src/main/java/indicator/TrendIndicators.java:240 | the tree is non-empty when read, and `result[i]` becomes the minimum of the window ending at `i` |
| TrendIndicators.MaxStep | src/main/java/indicator/TrendIndicators.java:212-221 | one loop iteration of `max` keeps the loop invariant and records output `i` |
| TrendIndicators.MinStep | src/main/java/indicator/TrendIndicators.java:232-241 | one loop iteration of `min` keeps the loop invariant and records output `i` |
| TrendIndicators.MaxLoop | src/main/java/indicator/TrendIndicators.java:212-222 | after the loop every output is the maximum of its window |
| TrendIndicators.MinLoop | src/main/java/indicator/TrendIndicators.java:232-242 | after the loop every output is the minimum of its window |
| TrendIndicators.Max | src/main/java/indicator/TrendIndicators.java:208-224 | `None` exactly when `period` is negative, or 0 with some input; otherwise a new array of the input's length whose `i`-th entry is the maximum of `values[max(0, i-period+1)..i]` (a running maximum while `i < period`) |
| TrendIndicators.Min | src/main/java/indicator/TrendIndicators.java:227-244 | `None` exactly when `period` is negative, or 0 with some input; otherwise a new array of the input's length whose `i`-th entry is the minimum of `values[max(0, i-period+1)..i]` |
| TrendIndicators.RunIsRun | src/main/java/indicator/TrendIndicators.java:157-172 | the count at `i` is between 0 and `i + 1`; the values it counts back over (0.0 before the first) all equal `values[i]`, and the next one back differs |
| TrendIndicators.RunUnique | src/main/java/indicator/TrendIndicators.java:157-172 | that description pins the count down uniquely |
| TrendIndicators.Since | src/main/java/indicator/TrendIndicators.java:154-174 | a new array of the input's length whose `i`-th entry is `Run` at `i`: 0 on a change, one more than before on a repeat, and 1 at index 0 when the first value is 0.0 |
| Helper.CheckSameSize | src/main/java/indicator/Helper.java:9-19 | never fails for fewer than two arrays; fails exactly when some array's length differs from the first's |
| Helper.MultiplyBy | src/main/java/indicator/Helper.java:22-30 | a new array of the input's length holding each value times the multiplier |
| Helper.Multiply | src/main/java/indicator/Helper.java:33-42 | `None` exactly on unequal lengths; otherwise a new array of the element-wise products |
| Helper.DivideBy | src/main/java/indicator/Helper.java:45-47 | multiplies by the reciprocal of the divider and keeps the length |
| Helper.Divide | src/main/java/indicator/Helper.java:50-59 | `None` exactly on unequal lengths; otherwise a new array of the element-wise quotients |
| Helper.Add | src/main/java/indicator/Helper.java:62-71 | `None` exactly on unequal lengths; otherwise a new array of the element-wise sums |
| Helper.AddBy | src/main/java/indicator/Helper.java:74-81 | a new array of the input's length holding each value plus the addition |
| Helper.Subtract | src/main/java/indicator/Helper.java:84-87 | `None` exactly on unequal lengths, a check that comes only from `add`; otherwise the element-wise differences |
| Helper.Diff | src/main/java/indicator/Helper.java:90-92 | `None` exactly for a negative `before` with some input; otherwise entry `i` is `values[i] - values[i - before]`, or `values[i]` while `i < before` |
| Helper.ShiftRightAndFillBy | src/main/java/indicator/Helper.java:106-118 | `None` exactly for a negative period with some input; otherwise entry `i` is `fill` for `i < period` and `values[i - period]` after |
| Helper.ShiftRight | src/main/java/indicator/Helper.java:121-123 | the same with fill 0 |
| Helper.ExtractSign | src/main/java/indicator/Helper.java:179-191 | entry `i` is 1 for `values[i] >= 0` (zero included) and -1 otherwise |
| Helper.KeepPositives | src/main/java/indicator/Helper.java:194-206 | entry `i` is `values[i]` where it is positive and 0 otherwise |
| Helper.KeepNegatives | src/main/java/indicator/Helper.java:209-221 | entry `i` is `values[i]` where it is negative and 0 otherwise |
| Helper.DivideByUndoesMultiplyBy | src/main/java/indicator/Helper.java:22-47 | in the real-number model, dividing by a non-zero divider undoes multiplying by it |
| Helper.DivideUndoesMultiply | src/main/java/indicator/Helper.java:33-59 | in the real-number model, dividing element-wise by a series with no zero undoes multiplying by it |
| Helper.AddByInverse | src/main/java/indicator/Helper.java:74-81 | in the real-number model, adding `-a` undoes adding `a` |
| Helper.SubtractUndoesAdd | src/main/java/indicator/Helper.java:62-87 | in the real-number model, subtracting a series undoes adding it, and adding it back undoes subtracting it |
| Helper.PositivesPlusNegatives | src/main/java/indicator/Helper.java:194-221 | the positive part plus the negative part is the series itself |
| Helper.SignsAndParts | src/main/java/indicator/Helper.java:179-221 | the sign is +1 exactly where the negative part is 0, and sign times value is the positive part minus the negative part |
| Helper.ShiftByZero | src/main/java/indicator/Helper.java:121-123 | shifting by 0 returns the series unchanged |
| Helper.ShiftTwice | src/main/java/indicator/Helper.java:106-118 | two shifts by `q` and then `p` with the same fill are one shift by `p + q` |
| VolumeIndicators.Obv | src/main/java/indicator/VolumeIndicators.java:44-62 | `None` exactly on unequal lengths; otherwise a new array of the volume's length with 0 at bar 0 and, at each bar, the signed volume summed over bars 1..i (up on a rise, down on a fall, unchanged when equal) |
| VolumeIndicators.BalanceIsRisingMinusFalling | src/main/java/indicator/VolumeIndicators.java:51-59 | the balance is the volume of rising bars minus the volume of falling bars |
| VolumeIndicators.ConstantClosingGivesZero | src/main/java/indicator/VolumeIndicators.java:51-59 | a closing series that never changes gives 0 on every bar |
| VolumeIndicators.BalanceBounded | src/main/java/indicator/VolumeIndicators.java:51-59 | the balance never exceeds, in either direction, the total absolute volume traded |
| Strategies.Action.Value | src/main/java/strategy/Action.java:9-16 | the value is in -1..1, 0 exactly for HOLD and positive exactly for BUY |
| Strategies.Flip | src/main/java/strategy/Action.java:9-16 | swapping BUY and SELL negates the action's value |
| Strategies.AgreedStep | src/main/java/strategy/AllStrategy.java:33-37 | comparing the running result with one more strategy turns a mismatch into HOLD and otherwise keeps it |
| Strategies.UnanimityMeaning | src/main/java/strategy/AllStrategy.java:32-38 | at each bar the combination is the first action when all strategies agree and HOLD otherwise; HOLD first means HOLD |
| Strategies.UnanimityOfOne | src/main/java/strategy/AllStrategy.java:32-40 | with one strategy the result is that strategy's actions unchanged |
| Strategies.UnanimityIgnoresOrder | src/main/java/strategy/AllStrategy.java:32-38 | reordering the strategies after the first does not change the result |
| Strategies.UnanimityIdempotent | src/main/java/strategy/AllStrategy.java:32-40 | combining again with the overwritten first array changes nothing |
| Strategies.CombineWith | src/main/java/strategy/AllStrategy.java:33-37 | one inner pass turns the combination over `i` strategies into the one over `i + 1`; it fails exactly when the later array is shorter |
| Strategies.CombineAll | src/main/java/strategy/AllStrategy.java:32-38 | fails exactly when some array is shorter than the first; otherwise the first array holds the unanimous combination |
| Strategies.AllStrategy.constructor | src/main/java/strategy/AllStrategy.java:18-20 | keeps the given strategies |
| Strategies.AllStrategy.Of | src/main/java/strategy/AllStrategy.java:12-14 | the factory builds a new combinator over the given strategies |
| Strategies.AllStrategy.Run | src/main/java/strategy/AllStrategy.java:23-41 | `None` for no strategies or for an array shorter than the first; otherwise the first strategy's own array, overwritten in place with the unanimous combination, with no other array changed |
| Strategies.Separate | src/main/java/strategy/SeparateStrategy.java:38-44 | BUY exactly when buy says BUY and sell says HOLD; SELL exactly when sell says SELL and buy says HOLD; HOLD in every other case |
| Strategies.SeparateMirror | src/main/java/strategy/SeparateStrategy.java:7-16 | swapping the two sides and flipping both signals flips the result |
| Strategies.SeparateStrategy.constructor | src/main/java/strategy/SeparateStrategy.java:23-26 | keeps the buy and sell strategies |
| Strategies.SeparateStrategy.Run | src/main/java/strategy/SeparateStrategy.java:29-48 | `None` for a null strategy or a strategy array shorter than the bars; otherwise a new array of the bar count combining the two bar by bar with `Separate` |

## Left out

- Tree keys are the rounded, scaled integers. The BigDecimal text conversion in `Tree.compare` is not modelled: NaN and Infinity would throw there. `max()`/`min()` return the stored `Number`, which can differ from its rounded key; the model returns the key.
- `Tree.compare` treats a null `Number` as 0. Null keys are not modelled; every caller passes doubles.
- Doubles are `real`s in `Helper`, `since` and `obv`. IEEE rounding, NaN (which `since` would count as a change at every step) and -0.0 are not modelled.
- Helper.Divide: a zero divisor gives 0 instead of Infinity or NaN.
- Helper.DivideBy: a zero divider multiplies by 0 instead of by Infinity.
- Helper.DivideByUndoesMultiplyBy: holds for real numbers only; with doubles, rounding and overflow break it (a product that overflows to Infinity stays Infinity after the division).
- Helper.DivideUndoesMultiply: holds for real numbers only; with doubles, rounding and overflow break it element-wise in the same way.
- Helper.AddByInverse: holds for real numbers only; with doubles, adding 1.0 and then -1.0 to 1e-20 gives 0.0.
- Helper.SubtractUndoesAdd: holds for real numbers only; with doubles, rounding loses small addends in the same way.
- `Helper.percentDiff`, `roundDigits`, `roundDigitsAll`, `generateNumbers`, `asDouble`, `pow`, `sqrt` and `abs` are floating-point formulas and are not part of this model. Neither are the other indicators of `TrendIndicators`, `VolumeIndicators`, `VolatilityIndicators` and `MomentumIndicators`, nor the threshold strategies.
- Exceptions are `None` (or `false`). The source may have written part of an array before its exception. `ShiftRightAndFillBy` and `SeparateStrategy.Run` drop that array. `AllStrategy.Run` overwrites its first array in place, and its contract says nothing about that array on the `None` path.
- TrendIndicators.Max: a zero period with some input is `None` from the start. The source throws at `i % period` after its first insert.
- TrendIndicators.Min: a zero period with some input is `None` from the start. The source throws at `i % period` after its first insert.
- TrendIndicators.Max, TrendIndicators.Min: the loop body is split into helper methods (`Track`, `Slide`, `RecordMax`/`RecordMin`, `MaxStep`/`MinStep`, `MaxLoop`/`MinLoop`). The statements run in the source's order.
- VolumeIndicators.Obv: the source's `long` overflow is not modelled (volumes are unbounded integers). Each bar is written once from a local total rather than copied and then adjusted with `+=`/`-=`.
- A strategy is the action array its `run` returns for the bar series. Several things are not modelled: the `ChartBar` record (only its bar count matters to `SeparateStrategy.Run`), a strategy returning null, a null entry among `AllStrategy`'s strategies, and nesting one combinator inside another. `AllStrategy` implements an `IStrategy` interface, which is not part of this model; it is read as `Strategy`.
- Tree depth and running time are not modelled; the tree is unbalanced by design.
