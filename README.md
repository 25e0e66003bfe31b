# evim's expression-tree engine, modelled in Dafny

evim ("evolutionary image maker") breeds pictures. A picture is three
expression trees over the pixel coordinates x and y, one each for the red,
green and blue channels. The user picks the pictures they like. evolve then
builds a new generation from them by crossing pictures (grafting a subtree of
one onto a copy of another) and mutating nodes. Trees are saved as text and
loaded back.

This project models the engine behind that:

- the node graph of `ast/ast.go`, with its child slots and parent pointers;
- the tree surgery on that graph: CopyTree, ReplaceNode, GetNthNode,
  NodeCount, Mutate, AddRandom and AddLeaf;
- the text format: the String methods, the lexer and the recursive-descent
  parser of `ast/parser.go`;
- the genetic layer of `main.go`: NewPicture, cross, picture.Mutate and
  evolve;
- the name saveTree picks for a saved picture.

Two levels describe each operation:

- **Values.** Module `Trees` states what an operation does to a tree value:
  `Subst`, `FillFirst`, `InsertAt`, `Mutated`, `MutateAt`, `Nth` and
  `PreOrder`. Module `Genetics` does the same for a picture's three trees:
  `Crossed`, `MutatedPicture` and `Child`.
- **Heap.** The Go code changes the node graph in place. The model keeps
  that graph in class `Ast.Arena`, where a Go pointer is an index into
  `nodes`. Pictures are class `Evolution.Picture`, whose fields are three
  channel roots. Each in-place method is proved against the value-level
  function, and each also states which nodes it leaves alone.

Modules and files:

| Module | File | What it holds |
|---|---|---|
| `Wrappers` | `wrappers.dfy` | `Option` and `Result` |
| `Kinds` | `kinds.dfy` | node kinds, arities, the random kind tables, the keyword table |
| `Trees` | `trees.dfy` | value-level trees and the specification functions |
| `Heap` | `heap.dfy` | the arena records and views of them |
| `HeapUpdates` | `heap_updates.dfy` | how views behave under single stores |
| `Mutation` | `mutation.dfy` | what Mutate's stores do to a tree |
| `Planting` | `planting.dfy` | what AddRandom and AddLeaf do to a tree |
| `Ast` | `arena.dfy` | the Arena class and its methods |
| `Lexing` | `lexer.dfy` | the lexer |
| `Parsing` | `parser.dfy` | parse, read from tokens |
| `Loading` | `loading.dfy` | parse building nodes in the arena |
| `Printing` | `printer.dfy` | String, and what the lexer makes of its output |
| `RoundTrip` | `roundtrip.dfy` | saved trees load back |
| `Regions` | `regions.dfy` | which trees an operation leaves alone |
| `Genetics` | `genetics.dfy` | crossing and mutating pictures, as values |
| `Evolution` | `evolution.dfy` | NewPicture, cross, picture.Mutate and evolve on the arena |
| `FileNames` | `filenames.dfy` | the name saveTree picks |

Randomness is a parameter. Every `rand.Intn` or `rand.Float32` result that
an operation uses is an argument, for instance `MutPick`, `CrossPick`,
`Offspring` or an AddRandom path. The `requires` on such an argument is the
range `rand.Intn` returns.

`strconv.FormatFloat` and `strconv.ParseFloat` are parameters too, named
`fmt` and `pf`. A float32 constant is its bit pattern, which the model only
copies and compares.

## Behaviour worth noting

- **A lone "-" is Minus.** lexNumber sends a lone `-` out as an operator
  token, and stringToNode maps `"-"` to OpMinus, a binary node
  (`ast/parser.go:60-61`, `ast/parser.go:173-174`). Negation is the keyword
  `Negate`. `Kinds.KindOfKeyword` reads the words this way.
- **parse skips parentheses.** Every parenthesis token is passed over
  (`ast/parser.go:132-133`), so a stream with unbalanced parentheses is not
  an error. `Parsing.ParseIgnoresParens` proves that parse gives the same
  result on the stream with its parentheses removed: `"Sin X )) ((("` parses
  like `"( Sin X )"`.
- **A cross at index 0 changes nothing.** cross hands the chosen node to
  ReplaceNode, which only rewrites the parent's slots
  (`main.go:101-108`, `ast/ast.go:61-71`). A copied channel root has no
  parent, so the child keeps the recipient's channel as it was.
  `Genetics.CrossedProps` states this case (`ai == 0 ==> zs == xs`).
  picture.Mutate, by contrast, does reassign the channel root when it
  mutates node 0 (`main.go:157-163`), and `Evolution.Picture.Mutate` models
  that.

## Model

| member | source | states |
|---|---|---|
| Kinds.BaseKind | ast/ast.go:585-632 | every rand.Intn(21) value gives an operator of arity 1 to 3 (never Picture or a leaf) |
| Kinds.BaseKindInjective | ast/ast.go:585-632 | different draws give different kinds |
| Kinds.BaseKindSurjective | ast/ast.go:585-632 | every operator kind is reachable, so the 21 draws cover the operator pool exactly |
| Kinds.LeafKind | ast/ast.go:634-645 | every rand.Intn(3) value gives a leaf of arity 0; a Constant carries the drawn value |
| Kinds.ArityThree | ast/ast.go:32-34 | exactly Picture, Lerp, FBM and Turbulence have three slots |
| Kinds.KeywordRoundTrip | ast/parser.go:48-101 | stringToNode reads every keyword a String method prints as the same kind |
| Kinds.KindOfKeywordInverse | ast/parser.go:48-101 | stringToNode accepts nothing but those keywords and never yields a Constant; everything else is its panic |
| Trees.SizeOfNode | ast/ast.go:140-146 | a node counts itself plus its children's counts, so at least 1 |
| Trees.PreOrderSize | ast/ast.go:81-94 | pre-order numbering has one entry per node |
| Trees.NthIsPreOrder | ast/ast.go:81-94 | GetNthNode's walk (skip whole subtrees by their counts) finds pre-order entry n; index 0 is the root |
| Trees.NthIsNode | ast/ast.go:81-94 | the found entry is a node, never a nil slot |
| Trees.SubstProps | ast/ast.go:61-71 | replacing the subtree at index n puts the new tree at n, changes the count by the size difference, keeps arities, and putting back the subtree already there changes nothing |
| Trees.SubstUndo | ast/ast.go:61-71 | replacing the subtree at n by a node and then putting the old subtree back gives the original tree |
| Trees.FillFirstProps | ast/ast.go:171-182 | filling the first nil slot uses one slot, adds the leaf's nodes, keeps arities; with no nil slot nothing changes |
| Trees.InsertAtProps | ast/ast.go:160-169 | AddRandom adds exactly the new node's count, uses one nil slot, keeps arities, and clearing the slot gives the old tree back |
| Trees.FirstPath | ast/ast.go:171-182 | the slots the pre-order search for a nil slot passes through lead to a nil slot |
| Trees.FirstPathFills | ast/ast.go:171-182 | AddLeaf's slot is the one AddRandom's walk would reach along that path |
| Trees.BlankProps | ast/ast.go:188-190 | a freshly constructed node is one node with one nil slot per unit of arity |
| Trees.MutatedProps | ast/ast.go:100-138 | the mutant has its kind's arity, keeps the old children in its first slots, has fresh leaves in the rest, and is an operator exactly when r <= 21 |
| Trees.MutatedSize | ast/ast.go:100-138 | the mutant's count is the kept subtrees plus the new leaves; it stays well shaped |
| Trees.MutateAtProps | ast/ast.go:100-138 | mutating index idx puts the mutant at idx and keeps the tree shaped and complete |
| Ast.Arena.NewNode | ast/ast.go:188-190 | a New* constructor appends one parentless node with nil slots, whose tree is Blank(k) |
| Ast.Arena.SetParent | ast/ast.go:156-158 | only the node's parent pointer changes |
| Ast.Arena.GetRandomBaseNode | ast/ast.go:585-632 | a fresh node of kind BaseKind(r), every slot nil |
| Ast.Arena.GetRandomLeaf | ast/ast.go:634-645 | a fresh leaf of kind LeafKind(r, v) |
| Ast.Arena.NodeCount | ast/ast.go:140-146 | the recursion returns the number of nodes of the tree |
| Ast.Arena.GetNthNode | ast/ast.go:81-94 | within or past the tree: node n of the pre-order list with n itself, or nil and the pre-order number of the tree's last node |
| Ast.Arena.CopyTree | ast/ast.go:44-59 | a fresh copy of the tree on new nodes only, linked, with the given parent; nothing that existed changes |
| Ast.Arena.RedirectSlots | ast/ast.go:63-69 | every slot of the parent that held the old node now holds the new one; nothing else changes |
| Ast.Arena.ReplaceNode | ast/ast.go:61-71 | for n > 0 the tree becomes Subst at n and stays a proper tree; for the root nothing the tree sees changes; only the parent's slots and the new node's parent pointer are written; the parent keeps its kind |
| Ast.ReplaceEffect | ast/ast.go:61-71 | the two stores of ReplaceNode give Subst on the tree and keep the grafted tree |
| Ast.Arena.Mutate | ast/ast.go:100-138 | the tree becomes MutateAt of the old one (rooted at the mutant for index 0); the mutant gets the old parent; records outside the tree do not change |
| Ast.Arena.BuildMutant | ast/ast.go:100-138 | Mutate's stores in the Go order leave the arena described by AfterMutate |
| Ast.Arena.PlaceMutant | ast/ast.go:101-117 | the new node takes the old node's place in its parent's slots |
| Ast.Arena.AdoptChildren | ast/ast.go:119-125 | the first loop moves the old children, up to the new arity, into the mutant |
| Ast.Arena.FillLeaves | ast/ast.go:127-133 | the second loop gives every nil slot of the mutant a fresh leaf |
| Ast.Arena.FillSlot | ast/ast.go:128-132 | one turn of that loop: a leaf goes into slot j exactly when it is nil |
| Mutation.MutateEffect | ast/ast.go:100-138 | what Mutate's stores leave is MutateAt on the tree, built of old and fresh nodes; no record outside the tree changes except at the old parent |
| Ast.Arena.PlantAt | ast/ast.go:163-167 | the new node's parent pointer and the slot that receives it are the only two stores |
| Planting.PlantEffect | ast/ast.go:160-169 | planting a bare node in the nil slot the path reaches gives InsertAt, and the tree gains exactly that node |
| Ast.Arena.AddRandom | ast/ast.go:160-169 | the node goes into the nil slot the drawn path reaches; the tree becomes InsertAt and gains exactly that node |
| Ast.Arena.AddLeaf | ast/ast.go:171-182 | the result is true exactly when a nil slot exists; the tree then becomes FillFirst, and with no nil slot nothing changes |
| Ast.LeafEffect | ast/ast.go:171-182 | planting at the first nil slot in pre-order is FillFirst |
| Lexing.Lexer.constructor | ast/parser.go:35-39 | a lexer at the start of the input with no tokens sent |
| Lexing.Lexer.Next | ast/parser.go:210-219 | the next character and width 1, or eof with width 0 at the end |
| Lexing.Lexer.Backup | ast/parser.go:221-223 | the cursor goes back by the last width |
| Lexing.Lexer.Ignore | ast/parser.go:225-227 | the characters read since the last token are dropped |
| Lexing.Lexer.Emit | ast/parser.go:205-208 | exactly one token is sent, holding the characters read since the last token |
| Lexing.Lexer.Accept | ast/parser.go:182-188 | the next character is consumed exactly when it is in the set |
| Lexing.Lexer.AcceptRun | ast/parser.go:190-195 | the cursor ends at the end of the longest run of characters in the set |
| Lexing.RunEndFacts | ast/parser.go:190-195 | that run consists of set characters and cannot be extended |
| Lexing.RunEndExact | ast/parser.go:190-195 | any maximal run is the one acceptRun finds |
| Lexing.Lexer.DetermineToken | ast/parser.go:140-157 | skips whitespace, sends one token per parenthesis, and hands a number start or operator start to the matching state; the machine stops exactly at the end of the input |
| Lexing.DelimsThen | ast/parser.go:140-157 | a run of delimiters lexes to its parenthesis tokens and then the rest of the text |
| Lexing.Lexer.LexOp | ast/parser.go:159-163 | one operator token: the first character, then the longest run of operator characters |
| Lexing.Lexer.LexNumber | ast/parser.go:165-180 | one token for the number lexeme; a lone "-" goes out as an operator |
| Lexing.Lexer.Run | ast/parser.go:41-46 | the tokens sent are exactly the reference token list of the input |
| Lexing.TokensCover | ast/parser.go:140-180 | every character that is not whitespace lands in exactly one token, in order |
| Lexing.TokensWellLexed | ast/parser.go:140-180 | every token has the lexer's shape: a lone parenthesis, or a number or operator recognised by its first character |
| Lexing.TokensShift | ast/parser.go:140-180 | the lexer started at a position of the second part of a text emits what it emits started there on the second part alone |
| Lexing.TokensAppend | ast/parser.go:140-157 | text followed by a delimiter lexes in two independent parts |
| Parsing.ParseTree | ast/parser.go:103-138 | a successful parse consumes at least one token |
| Parsing.ParseFacts | ast/parser.go:103-138 | a parsed tree is complete, has every arity right, and leaves a suffix of the stream |
| Parsing.ParseKidsFacts | ast/parser.go:117-119 | reading n children gives n complete shaped trees |
| Parsing.StripKeeps | ast/parser.go:132-133 | removing parentheses keeps the operator and number tokens, in order |
| Parsing.ParseIgnoresParens | ast/parser.go:132-133 | parse gives the same tree and error on the stream with its parentheses removed |
| Loading.Parse | ast/parser.go:103-138 | builds in the arena exactly the tree ParseTree reads, on fresh nodes under the parent, or returns ParseTree's error; old records never change |
| Loading.OpenNode | ast/parser.go:113-116 | the node is made and its parent set before any child is parsed |
| Loading.ParseOperator | ast/parser.go:113-120 | one node of the keyword's kind whose slots are filled in order with one parsed tree each |
| Loading.ParseSlot | ast/parser.go:118 | slot j receives the next tree of the stream, or the error of parsing it |
| Loading.BeginLexing | ast/parser.go:35-39 | the loaded tree is what ParseTree reads from the lexer's tokens, with no parent |
| Printing.FixedPointLexes | ast/ast.go:349-351 | a numeral in FormatFloat's 'f' form lexes as a single constant token |
| Printing.KeywordLexes | ast/parser.go:159-180 | every keyword lexes as a single operator token |
| Printing.ShowLexes | ast/ast.go:196-583 | lexing the String of a tree whose constants print as fixed-point numerals gives one token per word and one per parenthesis |
| Printing.ShowSepLexes | ast/ast.go:40-42 | children joined by a blank or a newline lex to their tokens one after another |
| RoundTrip.StripShow | ast/ast.go:196-583 | without its parentheses, a printed tree is its Polish notation |
| RoundTrip.ParsePolish | ast/parser.go:103-138 | parse reads Polish notation back as the tree, with each constant re-read, and leaves the rest of the stream alone |
| RoundTrip.ReloadExact | ast/parser.go:122-130 | when printing and re-reading a constant gives it back, the reloaded tree is the tree |
| RoundTrip.SavedTreeReloads | ast/parser.go:35-39 | loading a saved tree whose constants print as fixed-point numerals that ParseFloat reads gives the tree with its constants re-read; only parentheses are left unread |
| RoundTrip.SavedTreeReloadsExactly | ast/parser.go:35-39 | when each of the tree's constants survives printing and re-reading, the saved tree loads back as itself |
| Genetics.SproutProps | main.go:51-64 | the AddRandom loop adds one node per call, keeps the root kind and the arities, and loses no nil slot |
| Genetics.LeafedProps | main.go:66-76 | the AddLeaf loop finishes the tree: complete, one leaf per nil slot, root kind kept; on a complete tree it does nothing |
| Genetics.GrownProps | main.go:44-80 | a new channel is complete and shaped, rooted at the drawn base kind, and holds the root, one node per AddRandom call and one leaf per nil slot left |
| Genetics.CrossedProps | main.go:96-110 | only the chosen channel changes; a cross at index 0 changes nothing; otherwise the donor subtree sits at the chosen index; finished parents give a finished child |
| Genetics.MutatedPictureProps | main.go:138-164 | a mutation touches only the chosen channel and keeps the picture finished |
| Genetics.MutatedAllFinished | main.go:129-134 | any run of mutations keeps a picture finished |
| Genetics.ChildProps | main.go:112-136 | every offspring of finished survivors is finished; with no effective draws, offspring i is survivor i |
| Evolution.Picture.constructor | main.go:34-38 | a picture of the three given roots |
| Evolution.Picture.PickRandomColor | main.go:82-94 | draw c names the root of channel c |
| Evolution.Picture.Text | main.go:40-42 | a picture prints as the Picture node over its three channels |
| Evolution.Canvas | ast/ast.go:32-34 | the Picture node over three finished channels is a complete tree of arity 3 |
| Evolution.ShowCanvas | main.go:40-42 | the Picture node prints its three channels on lines of their own |
| Evolution.CanvasLoads | main.go:309-311 | the text of a picture loads back as the Picture node over the re-read channels |
| Evolution.SavedPictureLoads | main.go:309-311 | what saveTree writes for a picture loads back channel by channel |
| Evolution.AddRandoms | main.go:51-54 | one channel's AddRandom loop gives Sprout of the channel and touches no other tree |
| Evolution.AddLeaves | main.go:66-68 | one channel's AddLeaf loop gives Leafed of the channel and touches no other tree |
| Evolution.SproutChannel | main.go:51-54 | only channel k of the picture grows |
| Evolution.LeafChannel | main.go:66-68 | only channel k of the picture is finished off |
| Evolution.BasePicture | main.go:45-49 | three fresh base nodes form a new picture |
| Evolution.SproutAll | main.go:51-64 | the three AddRandom loops grow red, green and blue |
| Evolution.LeafAll | main.go:66-76 | the three AddLeaf loops finish red, green and blue |
| Evolution.NewPicture | main.go:44-80 | a new picture on new nodes only, whose channels are the trees Grown gives for the draws |
| Evolution.CopyPicture | main.go:97 | a new picture of copies with the same trees, on new nodes only |
| Evolution.Donor | main.go:99-106 | a fresh copy of the donor subtree drawn from the chosen channel and index |
| Evolution.Graft | main.go:108 | ReplaceNode on the copy puts the donor at the chosen index, and nothing outside the copy changes |
| Evolution.Cross | main.go:96-110 | a new picture whose trees are Crossed of the parents', on new nodes only; both parents keep their trees |
| Evolution.MutateChannel | main.go:151-155 | mutating node n of the drawn channel; for n = 0 the channel root becomes the mutant |
| Evolution.MutationSite | main.go:151-155 | the node drawn for mutation lies in that channel, has no nil slot, and is a root only for index 0 |
| Evolution.Picture.Mutate | main.go:138-164 | the picture's trees become MutatedPicture of the old ones; only the channel root at index 0 moves |
| Evolution.MutateTimes | main.go:130-133 | r mutations in a row give MutatedAll |
| Evolution.MutateMember | main.go:129-134 | one picture of the generation takes its mutations; the others keep their trees |
| Evolution.MutateStep | main.go:129-134 | one turn of the loop: picture i takes its mutations, the earlier ones keep theirs and the later ones are untouched |
| Evolution.MutateAll | main.go:129-134 | every picture takes its own mutations; the generation stays separate and the survivors' nodes do not change |
| Evolution.MutateEach | main.go:129-134 | the same, and pictures outside the generation keep their roots |
| Evolution.CrossChild | main.go:118 | the child of one cross joins the generation as a new picture; earlier children and the survivors keep their trees |
| Evolution.CrossNext | main.go:115-127 | child i is the cross of its recipient and donor, and joins the children made so far |
| Evolution.CrossAll | main.go:113-127 | the two crossing loops give NumPics new pictures, each the Crossing of its draws; survivors unchanged |
| Evolution.Evolve | main.go:112-136 | NumPics new pictures sharing no node, child k being Child of the draws; survivors keep their trees and no old record changes |
| FileNames.TrimSuffix | main.go:227 | the trimmed name plus ".apt" is the name |
| FileNames.Atoi | main.go:228 | a number read from a name lies in the range of a 64-bit int |
| FileNames.AtoiItoa | main.go:228-237 | Atoi reads back every number Itoa writes |
| FileNames.FileNumberItoa | main.go:226-232 | the name Itoa gives a number, followed by ".apt", is read back as that number; a name without the suffix gives no number |
| FileNames.BiggestNumber | main.go:223-236 | the loop's result is at least 0, at least every number read, and is 0 or one of them |
| FileNames.AddInt | main.go:237 | Go's int addition wraps modulo 2^64 into the int range |
| FileNames.SaveNameOverflows | main.go:237 | with "9223372036854775807.apt" present, the name as written carries -9223372036854775808 |
| FileNames.SaveNameAsWrittenAgrees | main.go:237 | below the top of the int range, the as-written name is the corrected one |
| FileNames.SaveName | main.go:237 | the corrected name is digits followed by ".apt" |
| FileNames.SaveNameNumber | main.go:237 | the corrected name carries biggest + 1, and the next listing reads that number back whenever it fits in an int |
| FileNames.SaveTreeNameAsWritten | main.go:218-237 | saveTree's choice of name: while every listed number is below the largest int, the name's number is at least 1, above every listed number, and the name is new; with the largest int listed, the name carries the smallest int |
| FileNames.SaveTreeName | main.go:223-237 | the same choice with the increment taken without wrap-around: the name's number is at least 1 and above every number in the listing; while it fits in an int the name is new |

## Left out

- Evaluation (Eval on every node, ASTToPixels, the noise functions) is not part of this model. It is float32 arithmetic, and the model keeps a constant only as a bit pattern.
- strconv.FormatFloat and strconv.ParseFloat are the parameters `fmt` and `pf`. The round-trip lemmas demand only of the constants in the tree at hand that `fmt` prints them in 'f' form and that `pf` reads them back. A constant holding a NaN or infinity pattern, which FormatFloat prints as "NaN", "+Inf" or "-Inf", does not meet this; every constant GetRandomLeaf makes is finite (`ast/ast.go:342`).
- Reading files, writing files, SDL rendering, the button GUI and main's event loop are not part of this model. The text saveTree writes and the name it picks are modelled; the directory listing is the parameter `names`; ioutil.ReadDir's error panic is left out.
- The lexer's goroutine and channel are replaced by a sequence of sent tokens. parse takes tokens from that sequence in the same order.
- Characters are Dafny chars. `next` reads one char with width 1, so UTF-8 byte widths are not modelled. Every character the lexer tests for is ASCII.
- rand is replaced by its results, passed as arguments. Where the Go code would call rand.Intn(0) and panic, the model demands a nil slot on the way down, a node with slots, and so on.
- Calling a method on a nil child would be a nil dereference panic in Go. The model demands complete trees there (NodeCount, CopyTree, GetNthNode, the kept children of Mutate).
- The three panics of parse become `Err` values of `ParseError`: stringToNode's on an unknown word, the one on running out of tokens and the one on a ParseFloat error. Unwinding through the callers is not modelled.
- Loading.Parse: on the error path the model states only that the arena grew by fresh nodes. It does not state the partly built nodes the Go code leaves behind.
- Evolution.CrossAll: evolve's two crossing loops are one loop over i. The recipient is survivor i for i < len(survivors), otherwise the drawn one (Genetics.Recipient). The order of rand calls within a cross is not kept.
- Evolution.Donor: it copies the donor subtree with its parent pointer, as CopyTree(bNode, bNode.GetParent()) does. That stale parent is overwritten by ReplaceNode.
- CopyTree builds the copy with reflect.New of the source's type. In the model this is a constructor of the same kind that copies a Constant's value.
- main's load path (main.go:303-312) is modelled as BeginLexing followed by taking the Picture node's three children (SavedPictureLoads). Reading the file is left out.
- Go's int is taken to be 64 bits wide.

## Findings

| source | as written | input that shows it | evidently intended | confidence | as-written member | corrected member |
|---|---|---|---|---|---|---|
| main.go:237 | `strconv.Itoa(biggestNumber+1)` wraps around when biggestNumber is the largest int | a working directory holding "9223372036854775807.apt" | a number at least 1 and larger than every N of the names "N.apt" | low: the number is far out of reach; not executed | FileNames.SaveNameOverflows | FileNames.SaveNameNumber |
