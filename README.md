# Scalar autodiff engine and MLP of `dnn.go`, modelled in Dafny

`dnn.go` is a small scalar reverse-mode automatic-differentiation engine with
a multilayer perceptron on top of it. A `Value` node holds `data`, `grad`, an
operation tag (`""`, `"add"`, `"mult"`, `"pow"`) and two child pointers.
`NewValue`, `Add`, `Mult` and `Pow` build nodes, so the graph only grows.
`FindChildren` sorts the graph by a post-order depth-first walk, `Backward`
seeds the root's gradient and accumulates gradients consumers first, and
`ZeroGrad` clears gradients recursively. `Neuron`, `Layer` and `MLP` build
their forward passes and the squared-error `Loss` out of graph nodes.

The model keeps the heap as an arena, `seq<Value>`. A node's identity is its
index. A pointer is `Ref = Nil | Ptr(id)`, and every child pointer names an
earlier index, so the graph is acyclic by construction.

- `values.dfy` (module `Values`) holds the node type and the four constructors as functions.
- `topo.dfy` (module `Topo`) holds `FindChildren` as a recursive method with in-out `topo` and `visited`. The ghost function `Dfs` specifies it.
- `backprop.dfy` (module `Backprop`) holds the gradient passes as functions on the arena and the chain-rule equation they satisfy.
- `chainrule.dfy` (module `ChainRule`) states what `Backward` computes: the adjoint equation, the root's gradient, unreachable nodes, and the sum, product and power rules.
- `network.dfy` (module `Network`) holds the arena each forward operation leaves, as functions. Its lemmas relate the returned data to plain arithmetic on the inputs and parameters.
- `graph.dfy` (module `Autograd`) holds the class `Graph`, whose field `nodes` is updated in place.
  - Every operation of the program that changes nodes in place or loops is a method of `Graph`. The pure constructors `NewValue`, `Add`, `Mult` and `Pow` are functions in `Values`, and `FindChildren` is the recursive method `Topo.FindChildren`.
  - Each method is proved to leave exactly the state the corresponding function describes.

The model reproduces these behaviours of the code:

- `Backward` overwrites only the root's gradient with 1. Every other node accumulates onto the gradient it already held.
- `NewMLP` clears `nonlin` on loop copies only, so every neuron, including those of the last layer, keeps `nonlin = true`.
- `Layer.forward` runs a copy of each neuron.
  - The copy's bias field is a fresh node that holds the stored bias.
  - The weights are shared through the slice.
  - The stored bias node therefore never enters the graph that `Layer.forward` builds.
- With no inputs, `Neuron.forward` clamps the bias node itself in place.
- `return *total` and `return *lossp` return a copy of the node. `Layer.forward` stores each returned copy in a fresh element of its result.

Two behaviours of the code are easy to miss:

- The code needs only `len(x) <= len(weight)` in `Neuron.forward` and `len(actual) <= len(target)` in `Loss`, not equal lengths. Shorter input lists are accepted.
- Because of the neuron copies, the bias stored in a layer's neuron receives no gradient from a backward pass through `MLP.forward`. Only the copy's bias node receives one. This follows from the copies but is not proved by a lemma (see "## Left out").

## Model

The constructors `Values.NewValue`, `Values.Add`, `Values.Mult` and `Values.Pow` (dnn.go:32-78) are plain functions without postconditions of their own; their rows are `Values.LeafNode` and `Values.OperatorNode`. `Backprop.Seed` (dnn.go:92) likewise has no row of its own; it appears in `ChainRule.BackwardAdjoint`, `ChainRule.BackwardRootGrad` and `Autograd.Graph.Backward`.

| member | source | states |
|---|---|---|
| Values.LeafNode | dnn.go:32-42 | `NewValue(x)` appended to the arena is a leaf with data `x` and gradient 0 that reaches only itself; the arena stays well formed |
| Values.OperatorNode | dnn.go:44-78 | `Add`, `Mult` and `Pow` build a node with gradient 0 and an operator tag; appending it keeps the arena acyclic and leaves the operands unchanged; its subgraph is the node plus the subgraphs of its two operands |
| Values.AppendKeepsReach | dnn.go:32-78 | allocating any node whose links point into the arena leaves the set reachable from every existing node unchanged: the graph only grows |
| Topo.Dfs | dnn.go:80-89 | `FindChildren` only appends to `topo`; what it appends is distinct, was not visited and is reachable from `node`; `visited` grows by exactly the appended nodes |
| Topo.FindChildren | dnn.go:80-89 | the recursive walk leaves exactly the `topo` and `visited` that `Dfs` describes; a nil or already-visited node changes nothing |
| Topo.DfsCorrect | dnn.go:80-89 | if `topo` lists children first and every visited node is listed or still being expanded, the walk keeps children first and adds exactly the nodes reachable from `node` |
| Topo.OrderIsTopological | dnn.go:84-87 | from empty `topo` and `visited`, every node reachable from the root appears exactly once, both children of a node appear before it, and the root is last |
| Backprop.Reversed | dnn.go:98 | `slices.Reverse`: element `k` of the result is element `len-1-k` of the input |
| Backprop.Step | dnn.go:100-110 | one iteration of the backward loop keeps the arena well formed and changes no data, tag or link |
| Backprop.StepAccumulates | dnn.go:100-110 | one iteration only adds: every node's gradient grows by the local derivative of the visited node with respect to it times that node's gradient; a leaf adds nothing and a power's exponent gets nothing |
| Backprop.StepAddSameOperand | dnn.go:101-103 | at `Add(y, y)`, `y`'s gradient grows by twice the node's gradient |
| Backprop.Propagate | dnn.go:100-110 | the whole loop keeps the arena well formed and changes gradients only |
| Backprop.PropagateAdjoint | dnn.go:100-110 | when consumers come before their operands, each node's final gradient is its starting gradient plus the contribution of every visited node, computed with that node's final gradient |
| Backprop.ZeroGradClears | dnn.go:118-126 | `ZeroGrad(root)` sets the gradient of every node reachable from `root` to 0 and changes nothing else: no data, no link, no other gradient |
| Backprop.ZeroGradIdempotent | dnn.go:118-126 | calling `ZeroGrad(root)` twice leaves the same state as calling it once |
| ChainRule.ReversedConsumersFirst | dnn.go:97-98 | reversing a children-first order with no repeats gives an order in which every consumer precedes its operands |
| ChainRule.BackwardOrderFacts | dnn.go:94-98 | the order `Backward` walks lists each node reachable from the root once, consumers first |
| ChainRule.BackwardAdjoint | dnn.go:91-110 | after `Backward(root)` no data or link has changed, and each node's gradient is its starting gradient (1 for the root) plus what every reachable node passes it with its final gradient |
| ChainRule.BackwardRootGrad | dnn.go:92 | the root ends a backward pass with gradient exactly 1, because no node it reaches consumes it |
| ChainRule.BackwardUnreachable | dnn.go:91-110 | a node not reachable from the root is left exactly as it was |
| ChainRule.BackwardAddSameOperand | dnn.go:101-103 | a backward pass from `Add(y, y)` adds 2 to `y`'s gradient |
| ChainRule.BackwardSumRule | dnn.go:101-103 | a backward pass from `Add(a, b)` over independent operands adds 1 to each operand's gradient |
| ChainRule.BackwardProductRule | dnn.go:104-106 | a backward pass from `Mult(a, b)` over independent operands adds `b.data` to `a`'s gradient and `a.data` to `b`'s |
| ChainRule.BackwardPowerRule | dnn.go:107-108 | a backward pass from `Pow(a, c)` over independent operands adds `c * pow(a, c - 1)` to the base's gradient and nothing to the exponent's |
| Network.Rectify | dnn.go:187-189 | when `nonlin` holds the result is never negative; the result is the input unless the input was negative and clamped to 0 |
| Network.ParamsAreLeaves | dnn.go:129-137 | every node `NewNeuron` allocates from the draws is a leaf with data `draw * 0.1`, gradient 0 and no operation, that reaches only itself; the arena stays well formed |
| Network.ParamsInitialised | dnn.go:128-142 | the leaves allocated from the draws, read as weights and then a bias, form a rectifying neuron initialised from those draws |
| Network.InitialisedLayersFit | dnn.go:158-176 | layers built with the widths `NewMLP(nin, sizes)` uses fit together: every neuron has a weight for each value its layer receives |
| Network.SumNodes | dnn.go:181-185 | the loop of `Neuron.forward` appends one `Mult` and one `Add` node per input, keeps every earlier node, and leaves the arena well formed |
| Network.SumNodesData | dnn.go:179-185 | the running total holds the bias plus `x[i]*weight[i]` folded left to right over the inputs |
| Network.NeuronForwardResult | dnn.go:178-192 | `n.forward(x)` appends two nodes per input and can change no earlier node but the bias node |
| Network.NeuronForwardValue | dnn.go:178-192 | the returned data is `bias + Σ x[i]*weight[i]`, rectified when `nonlin`; the returned node keeps the total's tag and operands; with inputs no earlier node changes, and with none the bias node itself is clamped |
| Network.NeuronCopyEval | dnn.go:197-198 | a loop copy of a neuron, whose bias is a fresh node holding the stored bias, computes what the stored neuron computes |
| Network.LayerForwardResult | dnn.go:194-203 | `l.forward(x)` only extends the arena and returns one node per neuron |
| Network.LayerForwardValue | dnn.go:194-203 | the nodes `l.forward(x)` returns hold what each neuron computes on the data of `x` |
| Network.MLPForwardResult | dnn.go:205-213 | `mlp.forward(x)` only extends the arena and returns as many nodes as the last layer has neurons (the input when there are no layers) |
| Network.MLPForwardValue | dnn.go:205-213 | the nodes `mlp.forward(x)` returns hold what the layers compute in turn from the data of `x`, with the parameters stored before the call |
| Network.LossNodes | dnn.go:222-229 | the loop of `Loss` appends four nodes per element and keeps every earlier node |
| Network.LossNodesData | dnn.go:222-229 | with the running loss at 0 and the constants at -1 and 2, the running loss holds `Σ pow(actual[i] + (-1)*target[i], 2)` folded left to right |
| Network.LossResult | dnn.go:215-232 | `Loss` appends three leaves and four nodes per element and changes no earlier node |
| Network.LossValue | dnn.go:215-232 | `Loss` returns data `0 + Σ pow(actual[i] + (-1)*target[i], 2)`; with elements the result is an `Add` node, and without elements it is the leaf 0 |
| Autograd.Graph.Backward | dnn.go:91-110 | `Backward(root)` leaves exactly the arena `BackwardResult` describes: root seeded with 1, then the reversed traversal walked |
| Autograd.Graph.Propagation | dnn.go:100-110 | the loop over the reversed order leaves exactly `Propagate` of the arena it started from |
| Autograd.Graph.BackStep | dnn.go:101-109 | the loop body updates the operands' gradients in place exactly as `Step` describes |
| Autograd.Graph.ZeroGrad | dnn.go:118-126 | the recursive reset leaves exactly the arena `ZeroGradResult` describes |
| Autograd.Graph.NewNeuron | dnn.go:128-142 | allocates one leaf per draw and returns a rectifying neuron with `nin` weights, initialised from the draws |
| Autograd.Graph.NewLayer | dnn.go:144-156 | allocates the leaves of `nout` neurons in order and returns a layer of initialised neurons of `nin` weights |
| Autograd.Graph.NewMLP | dnn.go:158-176 | allocates every layer's leaves in order and returns one layer per size; layer `k` has the previous size as width and every neuron keeps `nonlin`; the layers fit together |
| Autograd.Graph.AddLayer | dnn.go:163-165 | one iteration of `NewMLP`'s loop appends an initialised layer fed by the previous one |
| Autograd.Graph.WeightedTotal | dnn.go:179-185 | the loop of `Neuron.forward` leaves exactly the arena `SumNodes` describes and returns the running total's node |
| Autograd.Graph.NeuronForward | dnn.go:178-192 | `n.forward(x)` leaves exactly the arena and returns exactly the value `NeuronForwardResult` describes |
| Autograd.Graph.LayerForward | dnn.go:194-203 | `l.forward(x)` leaves exactly the arena and returns exactly the nodes `LayerForwardResult` describes |
| Autograd.Graph.MLPForward | dnn.go:205-213 | `mlp.forward(x)` leaves exactly the arena and returns exactly the nodes `MLPForwardResult` describes |
| Autograd.Graph.Loss | dnn.go:215-232 | `Loss(actual, target)` leaves exactly the arena and returns exactly the value `LossResult` describes |
| Autograd.Graph.LossConstants | dnn.go:216-220 | allocates the leaves 0, -1 and 2, in that order |
| Autograd.Graph.SumSquares | dnn.go:222-229 | the loop of `Loss` leaves exactly `LossNodes` and returns the node holding the final running loss |
| Autograd.Graph.AddSquare | dnn.go:223-228 | one iteration of `Loss`'s loop appends `Mult(-1, t)`, `Add(a, ·)`, `Pow(·, 2)` and `Add(loss, ·)`, and returns the new running loss |

## Left out

- Printing: the listing of the traversal in `Backward` (dnn.go:112-115), `PrintMLP` (dnn.go:234-241) and `main` (dnn.go:243-292). They are output and a demonstration driver.
- `rand.NormFloat64` in `NewNeuron` (dnn.go:132, dnn.go:137). The draws are a parameter, `draws`, taken in the order the program draws them.
- float64 arithmetic. Data and gradients are `real`, so rounding, overflow, NaN and infinities are not modelled.
- `math.Pow`. It is a parameter `pow: (real, real) -> real`, so every property holds for any power function. The exponent of `Loss` is the constant 2 passed to it.
- Go's pointer and copy mechanics beyond the behaviours listed above. A node's identity is its arena index. The model allocates a fresh node in exactly these places: each result of `NewValue`, `Add`, `Mult` and `Pow` that the program stores (the parameter leaves, the loop temporaries of `Neuron.forward` and `Loss`, and the three constants of `Loss`); the bias copy of each neuron in `Layer.forward`; and each value `Layer.forward` appends to its result. The values returned by `Neuron.forward` and `Loss` are returned as values, not stored as nodes.
- Autograd.Graph.NewMLP: an empty `l_sizes` makes the program panic on `l_sizes[0]`. The model requires a non-empty `sizes`.
- Negative sizes: `nin`, `nout` and the sizes are `nat`. In the program a negative width behaves like 0 (the loop of `NewLayer` does not run) or panics in `NewNeuron`'s `make`.
- Network.NeuronForwardValue: out-of-range inputs are a precondition, because `weight[i]` for `i >= len(weight)` panics. The same holds for `target[i]` in Network.LossValue.
- Loop variables: each `range` iteration is taken to have its own copy of the loop variable, as in Go 1.22 and later. The module file that fixes the Go version is not part of this model, and `import "slices"` only implies Go 1.21 or later. Under Go 1.21 all neurons of a layer would share one loop variable, so their bias copies would be one node rewritten per iteration; the model does not capture that aliasing.
- The claim that the stored bias receives no gradient is argued from the copies in `Layer.forward`, not proved: no lemma states that the nodes `LayerForwardResult` appends never reach the stored bias node.
- The zero `Value`s that `make([]Value, nin)` creates before `NewNeuron` overwrites them are not modelled. The weights are allocated directly with their drawn values.
