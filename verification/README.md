# Signer pipeline and tree list printer, in Dafny

This project models two small Go programs from a course repository and proves
properties of the models.

- **The signer** (`2/99_hw/signer/signer.go`) is a pipeline of jobs connected
  by channels. A producer sends values. `SingleHash` turns each value `v` into
  `crc(v) + "~" + crc(md5(v))`. `MultiHash` turns each of those into the
  concatenation of `crc("0"+x)` … `crc("5"+x)`, computed by six goroutines.
  `CombineResults` sorts everything it received and joins it with `"_"`.
  `IterateOverChan` is shared by the two hash stages. It accepts a string as
  it is and an int as its decimal text, and skips anything else. It starts one
  goroutine per accepted value, so a stage's outputs arrive in no fixed order.
  In the model a channel is a sequence of `Value`s. A stage's output may be any
  sequence with the same multiset as the mapped inputs. The two hash
  primitives are uninterpreted function parameters (`Signer.Hashers`).
- **The tree utility** (`1/99_hw/tree/main.go`) keeps the entries of a
  directory walk in a singly linked `List` of `DirParams`. `printList` walks
  that list once. It keeps a stack of prefix symbols, the current layer and
  whether the previous node was a last directory, and writes
  `prefix + connector + name + "\n"` for every node. The list is a Dafny class
  of heap nodes, updated in place. Its ghost fields `nodes`, `Contents` and
  `Repr` describe its shape. `printList`'s output is specified by the functions
  `Step`, `StateAt`, `Line` and `Render`.

Modules:

- `Decimal`: `strconv.Itoa` / `FormatInt(_, 10)` and a parser that reads the
  text back.
- `LexOrder`: the string order of `sort.Strings`. Insertion sort stands in
  for the library sort.
- `Signer`: the signer pipeline.
- `Tree`: the list and the line printer.
- `Wrappers`: `Option`.

## Model

| member | source | states |
|---|---|---|
| Signer.SupportedElement | 2/99_hw/signer/signer.go:39-56 | A string in the stream contributes itself and an int contributes `strconv.Itoa` of it, each in its own position. Any other value contributes nothing: the result is as if it were absent. |
| Signer.StageOutputsMeaning | 2/99_hw/signer/signer.go:38-59 | A stage emits exactly one output per accepted input. The k-th output is the transform applied to the k-th accepted text. |
| Signer.FilterMapPermutation | 2/99_hw/signer/signer.go:38-59 | Rearranging a stage's input only rearranges its output: the output multiset depends only on the input multiset. |
| Signer.SupportedStageOutputs | 2/99_hw/signer/signer.go:44 | The next stage reads a stage's outputs as the transformed texts, unchanged and in order, because every output is a string. |
| Signer.SingleHashParts | 2/99_hw/signer/signer.go:67-81 | Cutting a SingleHash result at its first "~" gives `crc(v)` on the left and `crc(md5(v))` on the right, provided a crc text holds no "~". |
| Signer.MultiHash | 2/99_hw/signer/signer.go:90-111 | For any run order of the six slot writers, each slot of `hashesSlice` is written exactly once. The result is the six crc values concatenated in slot index order. |
| Signer.SlotsInIndexOrder | 2/99_hw/signer/signer.go:105-108 | Slot i is placed right after slots 0..i-1, as a prefix of the full sum. |
| Signer.SlotAt | 2/99_hw/signer/signer.go:100-108 | When all crc texts have one width w, characters i·w up to (i+1)·w of the MultiHash result are exactly `crc(itoa(i) + v)`. |
| Signer.CombineResults | 2/99_hw/signer/signer.go:116-142 | The stage sends exactly one value. That value is the accepted texts, sorted and joined with "_", and it is "" when nothing was accepted. |
| Signer.CombinedPermutationInvariant | 2/99_hw/signer/signer.go:119-130 | CombineResults' output does not depend on the order its input arrives in. |
| Signer.CombinedDropsUnsupported | 2/99_hw/signer/signer.go:119-128 | A value that is neither a string nor an int, anywhere in the input, leaves the output unchanged. |
| Signer.CombinedFields | 2/99_hw/signer/signer.go:130-139 | Splitting the output at "_" gives back the sorted texts, which are in order (when no text holds a "_"). |
| Signer.FieldsJoin | 2/99_hw/signer/signer.go:132-139 | Splitting the joined text at "_" recovers the joined strings when none holds a "_". There is no extra field, so no separator is doubled, leading or trailing. |
| Signer.JoinEnds | 2/99_hw/signer/signer.go:132-139 | The joined text starts with the first string and ends with the last: there is no separator at either end. |
| Signer.ExecutePipeline | 2/99_hw/signer/signer.go:19-32 | Each job reads the channel the previous job wrote and the first channel stays empty. The returned channel contents form a valid run: each job's output is a rearrangement of its outputs for its input. |
| Signer.JobPermutation | 2/99_hw/signer/signer.go:11-17 | Every job maps a rearranged input to a rearranged output. |
| Signer.PipelineDeterministic | 2/99_hw/signer/signer.go:19-32 | Any two runs of one pipeline carry the same multiset on every channel. When the last job is CombineResults, the final channel's contents are identical. |
| Signer.SignerPipelineResult | 2/99_hw/signer/signer.go:62-142 | Every run of producer → SingleHash → MultiHash → CombineResults ends with exactly one value. That value is the sorted MultiHash(SingleHash(v)) of the accepted inputs, joined with "_". |
| Signer.SignerOrderIndependent | 2/99_hw/signer/signer.go:36-142 | The signature depends only on the multiset of input values, not on their order. |
| Signer.SignerIgnoresUnsupported | 2/99_hw/signer/signer.go:54-55 | A dropped value anywhere in the input does not change the signature. |
| Signer.SignerIntAsText | 2/99_hw/signer/signer.go:47-52 | An int contributes exactly what the string of its decimal digits would. |
| Signer.SignerTwoValues | 2/99_hw/signer/signer.go:130-139 | For two string inputs, the signature is the two expanded hashes, the smaller first, with one "_" between them. |
| Decimal.ParseItoa | 2/99_hw/signer/signer.go:51 | `strconv.Itoa(n)` is a well-formed decimal text, and reading it back gives n. |
| Decimal.ItoaParse | 1/99_hw/tree/main.go:115 | Every well-formed decimal text is the Itoa of the number it denotes. |
| Decimal.ItoaInjective | 2/99_hw/signer/signer.go:100 | Distinct numbers have distinct decimal texts, so the six slot prefixes "0".."5" differ. |
| LexOrder.SortSorted | 2/99_hw/signer/signer.go:130 | The sort's result is in lexicographic order. |
| LexOrder.SortedUnique | 2/99_hw/signer/signer.go:130 | Two sorted arrangements of the same multiset of strings are equal. |
| LexOrder.SortPermutationInvariant | 2/99_hw/signer/signer.go:130 | Sorting forgets the input order: inputs with the same multiset sort to the same sequence. |
| LexOrder.LessEqTotal | 2/99_hw/signer/signer.go:130 | Any two strings are comparable in the sort order. |
| LexOrder.LessEqAntisymmetric | 2/99_hw/signer/signer.go:130 | Strings that sort both ways round are equal. |
| LexOrder.LessEqTransitive | 2/99_hw/signer/signer.go:130 | The sort order is transitive. |
| Tree.List.constructor | 1/99_hw/tree/main.go:28-30 | The zero List has no head and holds nothing. |
| Tree.List.Add | 1/99_hw/tree/main.go:32-46 | The list keeps its shape and becomes the old contents followed by value; on an empty list the new node is the head. No earlier node is replaced. |
| Tree.List.Remove | 1/99_hw/tree/main.go:48-66 | The new contents are the old ones with the first element equal to value taken out, and the list keeps its shape. An empty list stays empty. |
| Tree.List.UnlinkAfter | 1/99_hw/tree/main.go:63-65 | Setting `curr.next = curr.next.next` removes exactly the node after curr, and the list keeps its shape. |
| Tree.RemoveFirstAt | 1/99_hw/tree/main.go:53-65 | When position k holds the first element equal to x, exactly that element is removed and the others keep their order. |
| Tree.RemoveFirstAbsent | 1/99_hw/tree/main.go:58-65 | Removing a value that is not in the list changes nothing. |
| Tree.RemoveFirstMultiset | 1/99_hw/tree/main.go:48-66 | remove takes out exactly one occurrence of the value if there is one, and nothing else. |
| Tree.RemoveFirstAppended | 1/99_hw/tree/main.go:32-66 | Adding a value the list lacks and then removing it restores the list. |
| Tree.DisplayNameMeaning | 1/99_hw/tree/main.go:108-117 | A directory's name is printed unchanged. A file's name gets " (empty)" for size 0, and otherwise " (", its size in decimal and "b)", from which the size reads back. |
| Tree.ColumnSymbol | 1/99_hw/tree/main.go:126-139 | Column j of line k (below node k's layer) belongs to the last earlier node a at layer j or less. That node sits exactly at layer j. The column is "\t" when a is a last directory, and "│\t" otherwise or when there is no such node. |
| Tree.RenderLine | 1/99_hw/tree/main.go:119-147 | Line k is the prefix stack joined, then the connector ("└───" for a last directory or file, "├───" otherwise), the printed name and a newline. The stack holds exactly as many symbols as node k's layer. |
| Tree.LinesPrefix | 1/99_hw/tree/main.go:107-153 | Printing more nodes only appends lines: the lines of the first k nodes are the first k lines of any longer run. |
| Tree.FormatNode | 1/99_hw/tree/main.go:108-145 | One pass of the loop body moves the printer state by one Step and builds exactly the Line for the node. |
| Tree.PrintList | 1/99_hw/tree/main.go:95-156 | With no write error, one line per node is written, in list order. When the write of line n fails, lines 0..n-1 have been written, printing stops there and the error is returned. |
| Tree.PrintNodes | 1/99_hw/tree/main.go:101-153 | The loop from the head along the next pointers of a well-formed node chain holding ps writes the rendered lines of ps, in order, up to the first failed write. It reports an error exactly when a write failed. |

## Left out

- Goroutines, channels, `sync.WaitGroup`, the closing of channels and the
  `mu` mutex around `DataSignerMd5` are not modelled. A channel is the
  sequence of what it carried. The nondeterminism of completion order is kept
  as "any rearrangement" (`Signer.IsJobRun`). The mutex only serialises calls
  and does not change any value.
- `DataSignerCrc32` and `DataSignerMd5` are not part of this model. They are
  deterministic function parameters of type `string -> string`.
- Signer.ExecutePipeline: Go accepts any `job` function. The model covers the
  jobs of this file plus a producer that sends fixed values (`Signer.Job`).
  Producer outputs are constrained only up to rearrangement, like the stages.
  Any job placed first that reads its input (a hash stage or
  CombineResults) would wait forever in Go, because the first channel is
  never written or closed, so the pipeline never returns. The model gives it
  an empty input instead; CombineResults then sends "".
- Signer.ExecutePipeline returns the run in which every stage's goroutines
  finish in input order. The other orders are covered by
  `Signer.IsPipelineRun` and `Signer.PipelineDeterministic`.
- Channel capacity (100) and blocking are not modelled.
- `sort.Strings` is not modelled by its own algorithm. It is specified as the
  unique sorted permutation (insertion sort) under lexicographic order on
  characters. This agrees with Go's byte order because UTF-8 preserves code
  point order.
- Tree.DirEntry: `os.DirEntry` is reduced to name, directory flag and the size
  `Info()` reports, and the model assumes `Info()` succeeds. When it fails,
  Go calls `Size()` on the nil result and panics. Sizes are unbounded
  integers.
- Tree.List.Remove compares `DirParams` by value. Go compares the `os.DirEntry`
  interface inside it by dynamic type and pointer identity.
- Tree.PrintList requires `Tree.Layered(l.Contents)`: layers are not negative,
  the first is at most 1, and they rise by at most one from node to node.
  The directory walk gives its first node the layer "number of '/' in the
  path argument", so its lists are Layered exactly when the path holds at
  most one '/'. Longer paths are not covered. With k '/' for k of two or
  more, the first node's jump pushes only one symbol, so the stack is k - 1
  entries shorter than the layer until the first fall. A first fall of k - 1
  layers or more stays within the stack's length and only shifts the
  indentation: layers 3, 4, 5, 3 print without a panic, and with two '/'
  every fall is of this kind. A shorter first fall slices past the length.
  Within the capacity that shows stale or empty-string entries (layers 3, 4,
  5, 4). Beyond the capacity Go panics (layers 3, 4, 3 slice a stack of
  length and capacity 2 to 3). After the first fall the stack holds one
  symbol per layer again. A directory whose nodes never fall (layers 3, 3, 3)
  prints without a panic.
- Tree.PrintNodes requires `Tree.Layered(ps)`, the same restriction as
  Tree.PrintList, whose loop it is.
- Tree.FormatNode requires a fall to stay within the stack's length
  (`p.layerNumber <= |symbolsArray|`). The model has no slice capacity, so it
  does not capture a Go re-slice up to the capacity, which exposes stale or
  empty entries, or the panic beyond it. Only non-Layered lists reach either
  case.
- Tree.PrintList: the writer is the sequence of accepted lines plus the index
  of the first failing write. Partial writes and the byte-level
  `[]byte(...)` conversion are not modelled.
- `ReadDir`, `dirTree`, `main` and the stray merge-conflict marker in
  `tree/main.go` are not part of this model. They are filesystem and
  command-line I/O.
