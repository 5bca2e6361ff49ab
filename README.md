# compile_net, modelled in Dafny

`compile_net(run, special_names)` lowers the kernels captured by a jit run
into a single C program. It returns that program as a list of lines:

- the weight data lines;
- the three header lines;
- the source of every kernel, in jit-cache order;
- one `float name[size];` declaration for every buffer that is not a weight;
- one `float *` alias for every weight;
- a `void net()` function that calls the kernels in order.

Buffers are named as they are first used. A special buffer takes the
caller's name for it. Every other buffer gets `buf_0`, `buf_1`, ... from a
counter, and it becomes a weight when its first use is not at argument 0.

The model has four modules:

- `Text`: the text primitives.
  - decimal rendering and its parser;
  - the `\xHH` byte escape and its decoder;
  - `', '.join`.
- `Resolver`: the buffer table the inner loop builds.
  - Datatypes: `Table` bundles the `bufs` dict, its key insertion order, the
    `bufnum` counter and `bufs_to_save`.
  - The table is specified as a left fold of one registration step over the
    surviving argument uses.
  - The fold keeps an invariant, and lemmas state what it means for a whole
    jit cache.
- `Emitter`: the specification of the returned lines.
  - the line formats and the declaration filter;
  - the lines emitted from a table (`Emit`);
  - the returned lines (`Program`), which are `Emit` applied to the table of the whole jit cache;
  - lemmas on where each part lands and what it holds, for any table ready to be emitted.
- `CompileEfficientnet`: the function itself, as imperative code.
  - It has an outer loop over the jit cache, an inner loop over each
    invocation's arguments and a loop over the saved buffers.
  - It is proved to return exactly `Emitter.Program`.

The model's inputs stand in for the Python objects:

- An invocation is its kernel name, its source, the handles of its argument
  buffers (`id(arg.cl)`) and its `bufs_to_delete` positions.
- `buffers` maps a handle to the buffer's length `len(cl)` and to the bytes
  a weight line embeds (`bytes(memoryview(cl)[0:len(cl)//4])`).

## Model

| member | source | states |
|---|---|---|
| CompileEfficientnet.CompileNet | examples/compile_efficientnet.py:6-43 | the returned lines are exactly `Program(jit, buffers, special)`; the loop keeps the table equal to the fold over the invocations visited so far, `cprog` equal to header plus their sources, and `statements` equal to their calls |
| CompileEfficientnet.ResolveArgs | examples/compile_efficientnet.py:18-29 | the inner loop leaves the table as the fold extended by the invocation's surviving uses, in position order; it keeps every earlier entry unchanged; `cargs` is the table names of the surviving arguments, in order |
| CompileEfficientnet.VisitArg | examples/compile_efficientnet.py:19-29 | one turn of the inner loop: a deleted position changes nothing, a live one extends the fold and `cargs` by exactly that use |
| CompileEfficientnet.RegisterArg | examples/compile_efficientnet.py:21-29 | the new table is one registration step, the key is then in the table, the returned name is its table name, and old entries are unchanged |
| CompileEfficientnet.EmitWeights | examples/compile_efficientnet.py:36-39 | one data line per saved buffer, and one alias line appended to `cprog` for each, in save order |
| Resolver.Surviving | examples/compile_efficientnet.py:19-20 | definition: the arguments at positions not in `bufs_to_delete`, in order, each with its position; its contract states only that there are at most as many as positions, and SurvivingSpec states the rest |
| Resolver.SurvivingSpec | examples/compile_efficientnet.py:19-20 | the surviving uses are the non-deleted positions, each exactly once, in increasing order, each with the handle passed there |
| Resolver.Survivors | examples/compile_efficientnet.py:19-20 | no contract; definition: the surviving uses of one invocation, that is `Surviving` over all its argument positions; SurvivingSpec and SurvivorHandles state what they are |
| Resolver.Uses | examples/compile_efficientnet.py:16-20 | no contract; definition: the surviving uses of the whole jit cache, invocation after invocation and in position order within each, which is the order the two loops visit live arguments; first use and the weight rule are read off this order |
| Resolver.SurvivorHandles | examples/compile_efficientnet.py:19-21 | a handle is among an invocation's surviving uses if and only if it is passed at some non-deleted position |
| Resolver.Register | examples/compile_efficientnet.py:22-28 | after one step the key is in the table and every earlier entry is unchanged |
| Resolver.FirstUse | examples/compile_efficientnet.py:22 | the index returned holds the handle, and no earlier use does: the first use decides |
| Resolver.GenName | examples/compile_efficientnet.py:26 | no contract; definition: the name `f"buf_{n}"` for counter value `n` |
| Resolver.Resolve | examples/compile_efficientnet.py:16-29 | no contract; definition: the table after registering each use of a sequence of uses in turn, starting from an empty table |
| Resolver.ResolveNet | examples/compile_efficientnet.py:16-29 | no contract; definition: the table after the loops over the whole jit cache, that is `Resolve` over its surviving uses in order |
| Resolver.ResolveNetConsistent | examples/compile_efficientnet.py:16-29 | the table of a jit cache satisfies the invariant: its keys are the used handles in first-use order; sizes are `len // 4`; special names and `buf_<n>` counter names are assigned; the saved list is the weights |
| Resolver.TableEntries | examples/compile_efficientnet.py:21-27 | the keys of `bufs` are exactly the handles passed at a non-deleted position; the key order lists each once, in order of first surviving use |
| Resolver.GeneratedExactly | examples/compile_efficientnet.py:23-27 | a handle gets a `buf_<n>` name if and only if it is in the table and not special |
| Resolver.CounterCount | examples/compile_efficientnet.py:25-27 | `bufnum` ends equal to the number of non-special entries, so a special entry never advances it |
| Resolver.GeneratedNames | examples/compile_efficientnet.py:26-27 | the non-special entries, in first-seen order, are named `buf_0`, `buf_1`, ... |
| Resolver.SpecialNames | examples/compile_efficientnet.py:23-24 | a special entry carries the caller's name for it |
| Resolver.GeneratedDistinct | examples/compile_efficientnet.py:26-27 | no two non-special entries share a name |
| Resolver.SizeRule | examples/compile_efficientnet.py:24-26 | every entry, special or not, has size `len // 4`, rounding down |
| Resolver.WeightRule | examples/compile_efficientnet.py:28 | a buffer is saved if and only if it is not special and its first surviving use is at a position above 0; the saved list follows first-seen order, each item under its table name |
| Resolver.NamingInjective | examples/compile_efficientnet.py:23-27 | when the special names are distinct and none has the form `buf_<n>`, distinct buffers get distinct names |
| Resolver.GenNameInjective | examples/compile_efficientnet.py:26 | distinct counter values give distinct `buf_<n>` names |
| Emitter.StatementLine | examples/compile_efficientnet.py:30 | no contract; definition: the text `f"{name}({', '.join(cargs)});"` |
| Emitter.StatementArgument | examples/compile_efficientnet.py:30 | a statement is exactly as long as the kernel name, `(`, the arguments, one `, ` between each two of them and `);`; it starts with the name and `(`, ends with `);`, holds argument `j` right after the `j` earlier arguments, and has `, ` after every argument but the last |
| Emitter.UseNames | examples/compile_efficientnet.py:29 | one table name per use; by definition item `j` is the name the table gives use `j` |
| Emitter.ArgNames | examples/compile_efficientnet.py:29 | `cargs`: one table name per surviving argument; the names, in order, are stated by CallArguments |
| Emitter.CallsWith | examples/compile_efficientnet.py:30 | `statements`: one statement per invocation; what statement `k` holds is stated by CallsAt |
| Emitter.DeclLine | examples/compile_efficientnet.py:33 | no contract; definition: the text `f"float {name}[{size}];"` |
| Emitter.SavedNames | examples/compile_efficientnet.py:33 | no contract; definition: the keys of `bufs_to_save`, the set the declaration filter tests names against |
| Emitter.Declarations | examples/compile_efficientnet.py:33 | no contract; definition: the declaration filter as written, keeping an entry of `bufs`, in insertion order, when its name is not a key of `bufs_to_save` |
| Emitter.WeightLine | examples/compile_efficientnet.py:38 | no contract; definition: the text `f"unsigned char {name}_data[] = \"{weight}\";"`; WeightLineDecodes states what it holds |
| Emitter.WeightLines | examples/compile_efficientnet.py:36-38 | `weights`: one data line per saved buffer; WeightsPlaced states that line `j` is the data line of saved buffer `j` |
| Emitter.AliasLine | examples/compile_efficientnet.py:39 | no contract; definition: the text `f"float *{name} = (float *){name}_data;"` |
| Emitter.AliasLines | examples/compile_efficientnet.py:36-39 | the `float *` aliases the weights loop appends to `cprog`: one per saved buffer; AliasesPlaced states that alias `j` is the one of saved buffer `j` |
| Emitter.Sources | examples/compile_efficientnet.py:17 | what the appends of line 17 add to `cprog`: one kernel source per invocation; SourcesPlaced states that source `k` is invocation `k`'s |
| Emitter.Layout | examples/compile_efficientnet.py:42-43 | the returned list is the weight lines, the header, the sources, the declarations, the aliases, `void net() {`, the statements and `}`, in that order, so its length is the sum of their lengths plus two |
| Emitter.Emit | examples/compile_efficientnet.py:42-43 | no contract; definition: `Layout` applied to the parts emitted from a table, with the fixed header lines of line 9 |
| Emitter.Program | examples/compile_efficientnet.py:43 | no contract; definition: `Emit` applied to the table of the whole jit cache |
| Emitter.ReadyNet | examples/compile_efficientnet.py:21-33 | the table of the whole jit cache is ready to be emitted: every key in its order has an entry, every saved buffer has bytes, and every surviving argument has a name |
| Emitter.WeightsPlaced | examples/compile_efficientnet.py:36-38 | for any table ready to be emitted, including the one of the whole jit cache that `Program` uses, the output opens with one data line per saved buffer, in save order, holding that buffer's escaped bytes |
| Emitter.HeaderPlaced | examples/compile_efficientnet.py:9 | the three header lines follow the weight lines |
| Emitter.SourcesPlaced | examples/compile_efficientnet.py:17 | after the header, line `k` is the source of invocation `k`, so a kernel that runs twice is emitted twice |
| Emitter.DeclarationsPlaced | examples/compile_efficientnet.py:33 | the declaration lines follow the kernel sources |
| Emitter.AliasesPlaced | examples/compile_efficientnet.py:39 | after the declarations come the aliases, one per saved buffer, in save order |
| Emitter.CallsPlaced | examples/compile_efficientnet.py:30 | `void net() {` follows the aliases; then comes one statement per invocation, in jit-cache order, and a closing `}` that ends the output; statement `k` calls kernel `k` with the table names of its surviving arguments |
| Emitter.CallsAt | examples/compile_efficientnet.py:30 | statement `k` of the call list is kernel `k`'s name applied to its argument names |
| Emitter.CallArguments | examples/compile_efficientnet.py:19-29 | argument `j` of call `k` is the table name of the handle at the `j`-th non-deleted position, and those positions keep their original order |
| Emitter.DeclarationsExact | examples/compile_efficientnet.py:33 | when no special name has the form `buf_<n>`, a declaration is emitted for exactly the entries that are not weights, special ones included, in first-seen order |
| Emitter.DeclarationsByHandle | examples/compile_efficientnet.py:33 | the name filter on `bufs_to_save` equals a filter on handles whenever a name is saved exactly when its handle is |
| Emitter.WeightLineDecodes | examples/compile_efficientnet.py:37-38 | the literal inside a weight line is exactly four characters per byte and decodes back to the buffer's bytes |
| Text.EscapeByte | examples/compile_efficientnet.py:37 | the escape of a byte is a backslash, an `x` and two upper-case hex digits whose value is the byte |
| Text.Escape | examples/compile_efficientnet.py:37 | byte `k` occupies exactly the characters `4k .. 4k+4` of the joined escape |
| Text.UnescapeEscape | examples/compile_efficientnet.py:37 | decoding the escaped literal gives back the bytes |
| Text.EscapeUnescape | examples/compile_efficientnet.py:37 | every literal the decoder accepts is exactly the escape of what it decodes to |
| Text.Join | examples/compile_efficientnet.py:30 | no contract; definition: `sep.join(parts)` |
| Text.JoinLength | examples/compile_efficientnet.py:30 | a join of one or more parts is as long as the parts together plus one separator between each two neighbours |
| Text.JoinAt | examples/compile_efficientnet.py:30 | part `j` of a join starts after the `j` earlier parts and `j` separators, and a separator follows it unless it is the last |
| Text.NatToString | examples/compile_efficientnet.py:26 | the decimal text is non-empty, all digits, and starts with `0` only for zero |
| Text.ParseNatToString | examples/compile_efficientnet.py:33 | parsing the decimal text of `n` gives back `n` |
| Text.NatToStringInjective | examples/compile_efficientnet.py:26 | distinct numbers have distinct decimal texts |

## Left out

- The `__main__` block (examples/compile_efficientnet.py:45-104) is not part of this model. It does the following, all of which is model loading, network I/O, string building and printing:
  - it builds EfficientNet and loads its pretrained weights;
  - it traces the jit by running it twice on a random input;
  - it names the input and output buffers;
  - it fetches `stb_image.h` and the ImageNet label table over the network;
  - it formats the `char *lbls[]` array and appends the C `main` string;
  - it prints the program.
- The jit run, the kernels and the OpenCL buffers are inputs:
  - a buffer object's identity `id(arg.cl)` is an integer handle;
  - its length and its weight bytes are given per handle in `buffers`;
  - the `memoryview` slice of the device buffer is not modelled.
- Floating point is not modelled: weight contents are bytes.
- `bufs_to_save` is a sequence of (name, handle) items, not a dict. Its keys are freshly generated `buf_<n>` names, so no key is ever overwritten and the sequence has the dict's iteration order.
- Emitter.DeclarationsExact: the source filters declarations by buffer name. A special buffer whose caller-chosen name equals a saved buffer's `buf_<n>` name therefore loses its declaration. The model keeps the name filter as written, and the clean statement is proved only when no special name has the form `buf_<n>`.
- Resolver.NamingInjective: the source does not check that special names are distinct or different from generated names. Distinct names are therefore proved only under that hypothesis.
- A length that is not a multiple of 4 is rounded down by `len // 4`, exactly as written. Nothing is rejected.
- The weights are read when `compile_net` runs. The model takes one fixed payload per handle, so later changes to a device buffer are out of scope.
- Resolver.Surviving: its own contract states only the length bound. The full characterisation is the separate lemma `Resolver.SurvivingSpec`.
