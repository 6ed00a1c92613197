# Tensor library and particle, modelled in Dafny

This project models the core of a small C++ aerospace library. It has two parts.

- **The dense matrix ("tensor") library.** A `tensor` is a row-major buffer of `double`s with its height and width. It is built zero-filled (each dimension raised to at least one) or from a literal. It has three in-place mutators (`set_tensor_element`, `set_tensor_content`, `swap_rows`). It has builders that fill a fresh tensor cell by cell (`multiply`, `copy`, `transpose`, `eye`, `augment_width`, `augment_height`, and the declared-only `add`). And it has `invert`, a Gauss-Jordan routine that row-reduces the augmented buffer `[a | eye]` in place and copies out its right-hand block.
- **The `particle` class.** A sphere whose 12-component state advances by the discrete-time linear model `state := phi·state + gamma·u`. It has setters for the input forces, mass, radius, moment of inertia and sample time, and a getter that returns a copy of the state.

Every `double` is a `real`, and the code's exact `== 0.0` tests are real equality.

The model follows the code, including the places where it departs from what its comments promise:

- `set_tensor_content` reports SUCCESS even when the shapes disagree and nothing is written.
- `swap_rows` has no upper-bound check. Equal indices report SUCCESS even when negative.
- `augment_height` reads its bottom block at offset `width(a)` rather than `height(a)`, which is right only for a square `a`.
- `eye` with a zero argument is an all-zero 1-row or 1-column tensor.
- `invert` deviates from textbook Gauss-Jordan in three ways:
  - Its pivot search stops one row past a pivot found below the diagonal, so the swap brings up the wrong row.
  - Each forward step eliminates only the first lower row with a non-zero entry.
  - Only the last pivot row is scaled to 1.

  So a SUCCESS from `invert` does not promise an inverse; `GaussJordan.NotAnInverse` exhibits one. `GaussJordan.IdentityOverruns` shows that even the identity of size 2 or more drives the code one row past the buffer.

Four more facts about the code that the model keeps:

- `set_sample_time` does not regenerate phi and gamma; those calls are commented out in `source/particle.cpp:84-85`.
- The status codes are only SUCCESS and FAILURE (`tensor_status`, `include/tensor.h:25-29`, modelled as the datatype `Tensors.Status` with exactly those two values); there are no separate singular, shape-mismatch or invalid-parameter codes.
- `multiply(a, invert(a))` is not the identity in general (see above).
- The particle constructors do not build phi and gamma from dt, mass and radius.

Layout:

- `matrices.dfy` (module `Matrices`): the value a tensor holds (`Matrix = seq<seq<real>>`) and the functions that specify each builder, with their lemmas.
- `gauss_jordan.dfy` (module `GaussJordan`): `invert`'s row reduction as functions that follow the code step by step (`ForwardPass`, `BackwardPass`, `Run`), the lemmas about it, and the source's own test instance.
- `tensors.dfy` (module `Tensors`): the `Tensor` class, its constructors and mutators, and every library operation as a method with its loops. Each is proved to produce what the functions above describe.
- `particle.dfy` (module `Particles`): the `Particle` class over `Tensor`s, the one-tick function `Step`, the n-tick `Response`, and the source's update test.

## Model

| member | source | states |
|---|---|---|
| Tensors.Tensor.Sized | include/tensor.h:44-69 | `tensor(m, n)` is a valid tensor of height max(m, 1) and width max(n, 1) with every cell 0.0 |
| Tensors.Tensor.Column | include/tensor.h:72-91 | `tensor(m)` is a column vector of height max(m, 1), width 1, all zeros |
| Tensors.Tensor.FromRows | include/tensor.h:94-120 | `tensor(v)` has height \|v\| and width \|v[0]\| with no clamping, and cell (i, j) is v[i][j]; it needs a non-empty literal whose rows are at least \|v[0]\| long |
| Tensors.Tensor.SetElement | source/tensor.cpp:20-32 | SUCCESS exactly when (row, col) is inside the tensor; then exactly that cell becomes `value`; otherwise FAILURE and no cell changes |
| Tensors.Tensor.SetContent | source/tensor.cpp:34-46 | always SUCCESS; every cell is copied from `vv` when `vv` has `height` rows and a first row `width` long, and content is unchanged otherwise |
| Tensors.Tensor.SwapRows | source/tensor.cpp:250-270 | equal indices: SUCCESS, no change; two distinct non-negative (in-range) indices: SUCCESS and exactly those two rows exchanged; a negative index: FAILURE, no change |
| Tensors.Multiply | source/tensor.cpp:48-70 | a fresh height(a) × width(b) tensor holding `Multiplied(a, b)`: the product when the inner dimensions agree, zeros otherwise |
| Tensors.AccumulateCell | source/tensor.cpp:59-65 | the k-loop of `multiply` leaves cell (i, j) equal to the row-column sum and changes no other cell |
| Tensors.Add | include/tensor.h:170-176 | `add` of two equal-shaped tensors is a fresh tensor of that shape holding the element-wise sum |
| Tensors.Copy | source/tensor.cpp:72-78 | a fresh tensor of a's shape with a's content, so later writes to it cannot reach `a` |
| Tensors.Transpose | source/tensor.cpp:80-90 | a fresh width(a) × height(a) tensor equal to `Transposed(a)` |
| Tensors.Eye | source/tensor.cpp:236-248 | a fresh tensor of the clamped shape equal to `Identity(m, n)` |
| Tensors.AugmentWidth | source/tensor.cpp:200-216 | a fresh height(a) × (width(a) + width(b)) tensor equal to `AugmentedWidth(a, b)` |
| Tensors.AugmentHeight | source/tensor.cpp:218-234 | a fresh (height(a) + height(b)) × width(a) tensor equal to `AugmentedHeight(a, b)`; when the widths agree, `a` must be square, because the offset the code reads `b` at stays in range only then |
| Tensors.AugmentHeightRow | source/tensor.cpp:223-229 | one pass of the column loop of `augment_height` sets row i to row i of `a` (top) or row i − width(a) of `b` (bottom) and changes no other row |
| Tensors.FindPivot | source/tensor.cpp:107-109 | the pivot is 0.0 exactly when the column is zero from the diagonal down; otherwise `pivot_row` is the diagonal row if its entry is non-zero, and one past the first non-zero row below it if not |
| Tensors.FindTarget | source/tensor.cpp:131-139 | the target row is the first row below the pivot row with a non-zero entry in the pivot column (or the height), and x is the pivot entry divided by the target's entry |
| Tensors.ScaleRow | source/tensor.cpp:142-144 | row t is multiplied by x cell by cell; other rows are kept |
| Tensors.SubtractRow | source/tensor.cpp:147-149 | row p is subtracted from row t; other rows are kept |
| Tensors.SubtractScaledRow | source/tensor.cpp:177-180 | x times row p is subtracted from row t; other rows are kept |
| Tensors.PivotAndSwap | source/tensor.cpp:107-124 | FAILURE exactly when the pivot column is zero from the diagonal down; otherwise the buffer `PivotSwap` computes, which swaps in the row the search stopped on |
| Tensors.EliminateStep | source/tensor.cpp:130-158 | the buffer `Eliminate` computes: the first lower non-zero row scaled and reduced by the pivot row, or, in the last row, the pivot row scaled by its reciprocal |
| Tensors.ForwardStep | source/tensor.cpp:104-158 | one forward iteration: FAILURE exactly when `ForwardPass` fails at the next column, otherwise the buffer `ForwardPass` has after it |
| Tensors.ClearColumnAbove | source/tensor.cpp:168-185 | one backward iteration turns the buffer into `ClearAbove(buffer, p)` |
| Tensors.ForwardLoop | source/tensor.cpp:104-159 | FAILURE exactly when the forward pass over all columns finds a zero pivot column; on SUCCESS the buffer is `ForwardPass(start, h)` |
| Tensors.BackwardLoop | source/tensor.cpp:164-186 | the buffer becomes `BackwardPass(start, h − 1)`: pivot rows h − 1 down to 1, each clearing its column above |
| Tensors.CopyRightBlock | source/tensor.cpp:189-193 | cell (i, j) of `a_inv` for i < h, j < n receives buffer cell (i, n + j); every other cell of `a_inv` is kept |
| Tensors.AugmentedBuffer | source/tensor.cpp:94 | `invert` starts from `augment_width(a, eye(h, w))`, which is `Augmented(a)` |
| Tensors.Reduce | source/tensor.cpp:104-186 | both loops together: FAILURE exactly when `Run(a)` is `Singular`, otherwise the buffer `Run(a)` ends with |
| Tensors.Invert | source/tensor.cpp:92-198 | for a square `a` whose run does not overrun: FAILURE exactly when a pivot column is zero from the diagonal down, with `a_inv` untouched (and of any size); on SUCCESS the top-left h × h block of `a_inv` is the right-hand block of the reduced buffer and every other cell is kept |
| Tensors.ConstructorTest | source/tensor.cpp:293-309 | the constructor test: `tensor(4, 3)` is a 4 × 3 zero tensor, and the 4 × 2 literal is held as given |
| Tensors.CopyTest | source/tensor.cpp:328-337 | the copy test: the copy of [[1,2,5],[2,1,50.02]] is a distinct tensor with the same cells |
| Tensors.TransposeTest | source/tensor.cpp:338-348 | the transpose test: [[1,3.2,0.5],[0.2,1,50.02],[0.1,11,25.01]] transposes to [[1,0.2,0.1],[3.2,1,11],[0.5,50.02,25.01]] |
| Tensors.SwapRowsTest | source/tensor.cpp:349-358 | the row-swap test: `swap_rows(0, 2)` on the same literal reports SUCCESS and exchanges its first and last rows |
| Tensors.AugmentWidthTest | source/tensor.cpp:359-372 | the width-augmentation test: [[1,2,3],[0,1,4],[5,6,1]] beside its copy is the stated 3 × 6 tensor |
| Tensors.AugmentHeightTest | source/tensor.cpp:373-386 | the height-augmentation test: the same literal above its copy is the stated 6 × 3 tensor |
| Tensors.EyeTest | source/tensor.cpp:387-393 | the identity test: `eye(4, 4)` is the 4 × 4 identity |
| Matrices.Multiplied | source/tensor.cpp:48-70 | the result of `multiply` is rectangular of shape height(a) × width(b) |
| Matrices.Sum | include/tensor.h:170-176 | the result of `add` has the operands' shape |
| Matrices.MultipliedCells | source/tensor.cpp:48-70 | the product's shape, and cell (i, j) is Σ_k a[i][k]·b[k][j] when width(a) = height(b), 0.0 in every cell otherwise |
| Matrices.MultiplyExample | source/tensor.cpp:311-326 | the instance in the source's unit test: [[1,2,0],[2,1,0]]·[[1],[2],[3]] = [[5],[4]] |
| Matrices.SumCells | include/tensor.h:170-176 | the sum has the operands' shape and adds cell by cell |
| Matrices.ProductDistributes | source/particle.cpp:25 | multiplying by phi distributes over the sum that `update` forms: a·(x + y) = a·x + a·y |
| Matrices.Transposed | source/tensor.cpp:80-90 | what `transpose(a)` builds is a rectangular width(a) × height(a) buffer |
| Matrices.TransposeInvolution | source/tensor.cpp:80-90 | the transpose is width(a) × height(a) with cell (i, j) = a[j][i], and transposing twice gives `a` back |
| Matrices.Identity | source/tensor.cpp:236-248 | what `eye(m, n)` builds has the clamped shape max(m, 1) × max(n, 1) |
| Matrices.IdentityCells | source/tensor.cpp:236-248 | `eye(m, n)` with m, n ≥ 1 has 1.0 exactly where i = j and 0.0 elsewhere; with a zero argument the clamped tensor is all zero |
| Matrices.AugmentedWidth | source/tensor.cpp:200-216 | what `augment_width(a, b)` builds is rectangular of shape height(a) × (width(a) + width(b)) |
| Matrices.AugmentedWidthBlocks | source/tensor.cpp:200-216 | shape height(a) × (width(a) + width(b)); equal heights: left block a, right block b; otherwise all zero |
| Matrices.AugmentedHeight | source/tensor.cpp:218-234 | what `augment_height(a, b)` builds is rectangular of shape (height(a) + height(b)) × width(a) |
| Matrices.AugmentedHeightBlocks | source/tensor.cpp:218-234 | shape (height(a) + height(b)) × width(a); equal widths (and so a square `a`): top block a, bottom block b; otherwise all zero |
| Matrices.Swapped | source/tensor.cpp:254-262 | the swap exchanges rows r and s and leaves every other row |
| Matrices.SwapTwice | source/tensor.cpp:254-262 | swapping the same rows twice restores the buffer |
| Matrices.SwapPermutes | source/tensor.cpp:254-262 | the swap permutes the rows (equal multisets of rows) |
| GaussJordan.FirstNonzeroBelow | source/tensor.cpp:131-139 | the first row at or after `from` with a non-zero entry in column c, or the height; every row skipped has 0.0 there |
| GaussJordan.PivotRowAfterSearch | source/tensor.cpp:107-109 | the search for a pivot found in row k ≥ c leaves `pivot_row` at or below the diagonal, and on k itself exactly when k is the diagonal row (one row further down otherwise) |
| GaussJordan.PivotSwap | source/tensor.cpp:107-124 | the pivot search and swap keep the buffer's shape, and in the last column the pivot left on the diagonal is non-zero |
| GaussJordan.Eliminate | source/tensor.cpp:130-158 | the elimination step keeps the buffer's shape |
| GaussJordan.EliminateBelow | source/tensor.cpp:104-158 | one forward iteration keeps the buffer's shape |
| GaussJordan.ForwardPass | source/tensor.cpp:104-159 | the forward loop after c columns keeps the buffer's shape when it does not stop |
| GaussJordan.ForwardIteration | source/tensor.cpp:104-159 | iteration c of the forward loop, applied to what the first c leave: a reduced outcome keeps the buffer's shape |
| GaussJordan.ClearAbove | source/tensor.cpp:168-185 | one backward iteration keeps the buffer's shape |
| GaussJordan.ClearAboveRows | source/tensor.cpp:169-184 | row t of a backward iteration is row t less m[t][p] times row p when t is above p and that entry is non-zero, and row t itself otherwise |
| GaussJordan.BackwardPass | source/tensor.cpp:164-186 | the backward loop keeps the buffer's shape |
| GaussJordan.Augmented | source/tensor.cpp:94 | the starting buffer of a square h × h input is h × 2h |
| GaussJordan.Run | source/tensor.cpp:92-186 | a reduced run ends with an h × 2h buffer |
| GaussJordan.ForwardPassStops | source/tensor.cpp:112-114 | once the forward loop has returned (FAILURE or an overrun), later columns change nothing |
| GaussJordan.ForwardPassHolds | source/tensor.cpp:112-114 | a stopped forward loop stays stopped for one more column |
| GaussJordan.ForwardPassRest | source/tensor.cpp:104-114 | after a step that does not reduce, that outcome is the outcome of the whole forward loop |
| GaussJordan.RunByPasses | source/tensor.cpp:104-186 | a forward pass that stops is the whole outcome; a reduced one is followed by the backward pass |
| GaussJordan.BackwardPassNext | source/tensor.cpp:166 | the next backward iteration clears the next pivot column up |
| GaussJordan.EliminateBelowKeepsZeroColumn | source/tensor.cpp:104-158 | an all-zero column stays all zero through a forward step |
| GaussJordan.ForwardPassKeepsZeroColumn | source/tensor.cpp:104-159 | an all-zero column stays all zero through the forward pass |
| GaussJordan.AugmentedLeft | source/tensor.cpp:94 | the left half of the starting buffer is the input |
| GaussJordan.ZeroColumnStepFails | source/tensor.cpp:107-114 | a column that is zero from the diagonal down makes the forward step report FAILURE |
| GaussJordan.PivotSearchOvershoots | source/tensor.cpp:107-124 | when the first non-zero entry of column c lies in a row k below the diagonal (and above the last row), the swap brings row k + 1 up to the diagonal, not row k |
| GaussJordan.ZeroPivotSwappedUp | source/tensor.cpp:107-124 | for [[0,1,0],[1,0,0],[0,0,1]] the swap of column 0 brings up row 2 and leaves 0.0 on the diagonal |
| GaussJordan.ZeroColumnFails | source/tensor.cpp:104-114 | a square matrix with an all-zero column is never inverted: the run reports FAILURE at that column, unless an earlier column already overran |
| GaussJordan.IdentityOverruns | source/tensor.cpp:130-144 | for every n ≥ 2 the run on `eye(n, n)` reaches the target search with no lower non-zero row and indexes past the buffer |
| GaussJordan.ExampleAugmented | source/tensor.cpp:94 | the starting buffer of the unit test's input is [a \| I] |
| GaussJordan.ExampleColumn0 | source/tensor.cpp:104-149 | column 0 of the unit test's input: row 2 is scaled by 1/5 and row 0 subtracted |
| GaussJordan.ExampleColumn1 | source/tensor.cpp:104-149 | column 1: row 2 is scaled by −1.25 and row 1 subtracted |
| GaussJordan.ExampleColumn2 | source/tensor.cpp:150-158 | column 2, the last: its row is scaled by 1 / −0.5 |
| GaussJordan.ExampleForward | source/tensor.cpp:104-159 | the forward pass of the unit test's input ends upper triangular with a unit last pivot |
| GaussJordan.ExampleBackward2 | source/tensor.cpp:168-185 | pivot row 2 clears column 2 from rows 1 and 0 |
| GaussJordan.ExampleBackward1 | source/tensor.cpp:168-185 | pivot row 1 clears column 1 from row 0 |
| GaussJordan.ExampleBackward | source/tensor.cpp:164-186 | the backward pass of the unit test's input |
| GaussJordan.ExampleRun | source/tensor.cpp:92-186 | the whole run of the unit test's input |
| GaussJordan.RightBlock | source/tensor.cpp:189-193 | the block copied out of an h × 2h buffer is h × h, with cell (i, j) taken from buffer cell (i, h + j) |
| GaussJordan.ExampleBlock | source/tensor.cpp:189-193 | the block copied out of the final buffer |
| GaussJordan.InvertExample | source/tensor.cpp:394-407 | the instance in the source's unit test: [[1,2,3],[0,1,4],[5,6,1]] runs to SUCCESS and yields [[-11.5,8,2.5],[10,-7,-2],[-2.5,2,0.5]] |
| GaussJordan.SingularExample | source/tensor.cpp:112-114 | [[1,0,3],[0,0,4],[5,0,1]] reports FAILURE |
| GaussJordan.SkewRun | source/tensor.cpp:92-186 | the run on [[2,0],[1,1]] succeeds, with row 0 never scaled to a unit pivot |
| GaussJordan.NotAnInverse | source/tensor.cpp:150-158 | for [[2,0],[1,1]] the routine reports SUCCESS, yet a times the copied block is not the identity |
| Particles.Step | source/particle.cpp:25 | one tick gives a state of the state's shape whose cell (i, j) is row i of phi against column j of the state plus row i of gamma against column j of u |
| Particles.Response | source/particle.cpp:138-145 | the state after n ticks of the test loop keeps the state's shape |
| Particles.TwoTicks | source/particle.cpp:21-30 | two ticks give phi·(phi·s) + phi·(gamma·u1) + gamma·u2, the n = 2 case of phiⁿ·s plus the sum of phiⁱ·gamma·u |
| Particles.ResponseTwo | source/particle.cpp:137-145 | after two ticks of the test the impulse has entered once through phi·gamma and the resting input once through gamma |
| Particles.WriteTriple | include/particle.h:38-45 | three writes into column 0 give the column (x, y, z) |
| Particles.Triple | include/particle.h:27-28 | a fresh 3 × 1 column holding (x, y, z) |
| Particles.ModelTensors | include/particle.h:27-28 | the state, phi, gamma and u start as four distinct zero tensors of shapes 12 × 1, 12 × 12, 12 × 6 and 6 × 1 |
| Particles.Particle.FromScalars | include/particle.h:31-46 | radius and mass are set, position = (x, y, z) and velocity = (dx, dy, dz) |
| Particles.Particle.FromVector | include/particle.h:47-64 | radius and mass are always set; position = a[0..2] and velocity = a[3..5] only when \|a\| = 3·dimension = 9, and both stay zero otherwise |
| Particles.Particle.FromTensor | include/particle.h:65-82 | radius and mass are always set; position and velocity come from column 0, rows 0..2 and 3..5, only when height(a) = 9, and stay zero otherwise |
| Particles.Particle.Update | source/particle.cpp:21-30 | SUCCESS; the state becomes a fresh tensor equal to `Step(phi, gamma, u, old state)`; phi, gamma, u and the scalars are kept |
| Particles.Particle.SetU | source/particle.cpp:35-52 | SUCCESS; u becomes the column (fnx, fny, fnz, ftx, fty, ftz) |
| Particles.Particle.SetMass | source/particle.cpp:54-59 | SUCCESS; mass = m and moi = 2·m·radius²/5; radius, dt and state are kept |
| Particles.Particle.SetRadius | source/particle.cpp:61-66 | SUCCESS; radius = r and moi = 2·mass·r²/5; mass, dt and state are kept |
| Particles.Particle.SetMoi | source/particle.cpp:68-74 | SUCCESS; mass = m, radius = r and moi = 2·m·r²/5 |
| Particles.Particle.SetSampleTime | source/particle.cpp:76-88 | 0.0 gives FAILURE with dt kept; any other value becomes dt with SUCCESS; phi and gamma are not touched |
| Particles.Particle.GetState | source/particle.cpp:92-95 | a fresh tensor equal to the state |
| Particles.StepResponseTick | source/particle.cpp:140-144 | one pass of the test loop: at i = 1 the input is zeroed, then one update extends the response by a tick |
| Particles.RunTicks | source/particle.cpp:138-145 | n passes of the test loop leave the state equal to `Response(..., n)`: the impulse for the first tick, zero input after it |
| Particles.ParticlePrintTest | source/particle.cpp:118-124 | the print test's `particle a(1.2, 2.5, 0.0)` has radius 1.2, mass 2.5, zero position and velocity, and the zero starting tensors |
| Particles.StepResponseTest | source/particle.cpp:126-149 | after the test, mass is 0.001 and the moment of inertia 2·0.001·radius²/5 with the radius kept; the snapshot taken before the loop still holds the starting state after n updates, and the final snapshot is the n-tick step response from it |

## Left out

- Console output (`print`, `print_tensor`, `particle::print`). Every test block of the two `main`s is kept, without its printing: the tensor tests as the methods `Tensors.ConstructorTest`, `CopyTest`, `TransposeTest`, `SwapRowsTest`, `AugmentWidthTest`, `AugmentHeightTest` and `EyeTest`, and the lemmas `Matrices.MultiplyExample` and `GaussJordan.InvertExample`; the particle tests as the methods `Particles.ParticlePrintTest` and `Particles.StepResponseTest`.
- Particles.StepResponseTest: takes any valid particle instead of the test's own `particle a(1.2, 2.5, -1.125)`. No constructor takes three doubles, so that call can bind only to the tensor constructor through the conversion of −1.125 to an unsigned row count, which is undefined behaviour in C++. It also runs any number n of ticks rather than the fixed 1000.
- IEEE-754 rounding: every `double` is a `real`.
- `norm`, `create_dcm`, `rotate_quaternion`, `euler_to_quaternion` and `gaussian_elimination` are declared in `include/tensor.h` but none of them is defined in the sources, so there is no behaviour to model.
- `add` is declared but never defined. `Tensors.Add` is the element-wise sum its comment describes, with equal shapes required.
- The stale `header/` directory, the Python prototypes and the specification-file reader are not part of this model.
- Tensors.Tensor.FromRows: requires a first row of length at least one. A literal with an empty first row gives an m × 0 tensor (`include/tensor.h:99-119`), which the model does not represent, because every modelled tensor keeps a width of at least one. `transpose` of such a tensor reads past its rows (`source/tensor.cpp:85`), and `invert` with m ≥ 2 reads column UINT_MAX (`source/tensor.cpp:165`, `source/tensor.cpp:172`).
- Tensors.Tensor.SetContent: requires every row of `vv` to be at least `width` long when `vv` has `height` rows and a first row `width` long, because the code copies `width` entries from each row and a shorter row is read past its end, which is undefined behaviour in C++.
- Tensors.Tensor.SwapRows: requires in-range indices when they are distinct and non-negative, because the code has no upper-bound check and indexes past the buffer otherwise.
- Tensors.AugmentHeight: requires a square `a` when the widths agree, because the code reads `b` past its last row otherwise.
- Tensors.Invert: requires a square `a`, because the run is modelled only for square inputs: the backward pass is written with `pivot_col == pivot_row`, which holds only when height and width agree. Two non-square cases that the code does run without reading past its buffers are therefore not modelled: a wider `a` whose forward loop returns FAILURE at a zero pivot column before any read past the last row (for example `[[0, 1]]`), and a taller h × (h − 1) `a` whose run does not overrun.
- Tensors.Invert: requires a run that does not overrun. An overrun happens when the pivot search ends one row past a pivot found in the last row, or when a non-last column has no lower non-zero entry; the code then indexes past the buffer, which is undefined behaviour in C++.
- Tensors.Invert: requires `a_inv` to be at least as large as `a` when the run succeeds, because the copy-out writes its top-left h × w block; on the FAILURE path `a_inv` is never touched and may have any size.
- Tensors.PivotAndSwap: the swap's FAILURE branch is proved unreachable rather than modelled, because both indices are non-negative and distinct there.
- Particles.ModelTensors: `include/particle.h` declares only radius, mass, position and velocity, while `source/particle.cpp` uses state, phi, gamma, u, moi and dt, which no constructor initialises. The model holds all of these fields. It starts state, phi, gamma and u as zero tensors of shapes 12 × 1, 12 × 12, 12 × 6 and 6 × 1, moi at 0.0 and dt at 0.001. The phi and gamma that a sample time, mass and radius would determine are never built by the code, so they are not modelled.
- Particles.TwoTicks: proves the closed form phiⁿ·s + Σ phiⁱ·gamma·u only for n = 2; the general n needs associativity of the product, which is not proved.
- Particles.Particle.FromVector: the C++ `a.size()` is unsigned and `dimension` is a `uint8_t`; the comparison with 9 is modelled on unbounded integers, with the same outcome.
