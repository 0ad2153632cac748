# Data types of PostgreSQL contrib: a verified model

This project models, in Dafny, five pieces of the PostgreSQL 9.1.2 contrib modules and proves what
they are for.

* **Edit distance** (`EditScript`, `EditMatrix`, `EditWindow`, `EditBounded`, `Levenshtein`): both
  compilations of `levenshtein.c`, the two-row program and the one that keeps only a sliding window
  of each row.  The reference is the cheapest script of edits.  `EditBounded` is the windowed program
  as a function of its arguments, on which the exact condition for its answers is proved.  Cells of a
  row are `Unset` until they are written, so that reading one too early would not verify.
* **The boolean query language of intarray** (`QueryText`, `QueryGrammar`, `QueryParser`,
  `QuerySpelling`, `QueryErrors`, `QueryInput`, `BoolQuery`, `QueryPrinter`, `QueryLayout`,
  `QueryGin`): scanner, operator-stack parser, linking of left operands, interpreter, printer, and the
  use of queries by the GIN index.  The reference is a grammar, from characters up, with its own truth
  function.
* **Lossy keys of intarray** (`IntTool`, `RangeKey`, `RangeOptimal`, `IntGist`,
  `IntGistGrowth`, `Signature`): sorted sets compressed to 100 ranges and expanded again, bit
  signatures, the growth of an index, and searches through trees of such keys.  The reference is the
  plain set operator on the stored arrays.
* **hstore** (`HStorePairs`, `HStoreLayout`, `HStoreBuild`, `HStoreOps`, `HStoreUnique`,
  `HStoreArrays`, `HStoreFind`, `HStoreOrder`, `HStoreText`, `HStoreGrammar`, `HStoreErrors`,
  `HStorePrinter`, `HStoreInOut`): the packed form, the operators that build and search it, its
  order, parser and printer.  The reference is `map<string, Option<string>>`, and for texts a grammar
  over characters.
* **ltree** (`Ltree`, `LtreeGist`): comparison of label paths and the index tests on page bounds.
  The reference is the lexicographic order on sequences of labels, and the prefix relation.

`Memcmp` holds the byte comparison used by the last two.

Code that updates things in place is modelled in place: arrays that are sorted, deduplicated,
compressed or filled, the parser states (`WorkState`, `HSParser`), the printer, the memory in which
an hstore value is built and finalized, and label paths whose number of levels is lowered and
restored.  What qsort leaves is a parameter of the methods that sort with it: any ordered permutation.

Names in doc comments such as `HS_COPYITEM` or `findoprnd` are those of the C source.

Some findings:

* The `left` field of a query item is an int2.  Links are right if and only if every right operand
  has at most 32767 items (`BoolQuery.LinksRightIffFit`).  Texts with longer ones are accepted
  (`QueryPrinter.LongOperandAccepted`); depending on the length their links point past the array, at
  the operator itself or into the right operand (`BoolQuery.LongOperandWraps`).  Printing is not
  affected.
* Compression compares 32-bit differences.  It is optimal if and only if no gap of the set is 2^31
  wide or wider (`RangeKey.Compress`, `RangeOptimal.OptimalIffCompressed`); elements are never lost.
* Opening a compressed key counts through each range with an int.  A range that ends at 2147483647
  has no end for that counter, which wraps around while the loop writes on past its buffer.  A stored
  key can be opened if and only if its set has fewer than 200 elements or does not hold that value
  (`IntGist.StoredOpens`); an index without that value is safe (`IntGistGrowth.GrownSearchIsExact`).
* A leaf array of 200 or more elements is stored with a notice only and then read as ranges; for an
  even number of elements that is harmless if and only if they come in adjacent pairs and 2147483647
  is not among them (`RangeKey.LongLeafReadAsRanges`).
* For contained-by an index page is tested for overlap, which loses empty arrays and nothing else
  (`IntGist.ContainedBySafeIffNonEmpty`, `Signature.SignContainedBySafeIffNonEmpty`).
* `ltree_compare` multiplies two numbers of levels.  The result fits an int if and only if the first
  path is not an extension of the second by more than 14653 levels; one level more and the sign turns
  (`Ltree.CompareFitsInt`, `Ltree.LongExtensionWraps`).
* A number with a leading zero in a query is octal, since it is read by `strtol` with base 0.
* The unbounded Levenshtein routine is right for all penalties.  The bounded one is right for all
  non-negative penalties, and for some others with which it never uses its window; these are told
  exactly by `EditBounded.BoundedExact`.  Two things go wrong with the rest: the theoretical minimum
  behind the early exit is no lower bound (`EditBounded.EarlyExitExact`), or the marker max_d + 1 in
  a given-up column reads as within the bound (`EditBounded.MarkerOnTheRight`,
  `EditBounded.MarkerOnTheLeft`).

## Model

| member | source | states |
|---|---|---|
| Levenshtein.LevenshteinInternal | hw4/postgresql-9.1.2/contrib/fuzzystrmatch/levenshtein.c:210-402 | the two-row program returns the edit distance for all strings and all integer penalties, reads no cell that was not written, and refuses exactly the pairs of non-empty strings of which one is over 255 characters |
| Levenshtein.LevenshteinLessEqualInternal | hw4/postgresql-9.1.2/contrib/fuzzystrmatch/levenshtein.c:138-403 | for all strings and all integer penalties the program gives the answer of the windowed recurrence Bounded and reads initialised cells only; with usable penalties that is the distance if it is within the bound and something larger if not (for non-negative penalties and non-empty strings exactly bound + 1), and the distance for a negative bound; refused are exactly the pairs of non-empty strings of which one is over 255 characters |
| EditBounded.BoundedExact | hw4/postgresql-9.1.2/contrib/fuzzystrmatch/levenshtein.c:138-403 | the bounded routine answers every call rightly for exactly these penalties: non-negative ones; ins_c and del_c both at most 0; or sub_c and ins_c + del_c non-negative, one of them 0 |
| EditBounded.BoundedRight | hw4/postgresql-9.1.2/contrib/fuzzystrmatch/levenshtein.c:138-403 | with such penalties the answer is the distance within the bound, and over the bound otherwise |
| EditBounded.BoundedWrong | hw4/postgresql-9.1.2/contrib/fuzzystrmatch/levenshtein.c:138-403 | for all other penalties a call with strings of at most two characters is answered wrongly |
| EditBounded.MarkerOnTheRight | hw4/postgresql-9.1.2/contrib/fuzzystrmatch/levenshtein.c:240-244 | with ins_c negative and the window in use, "a" against "b" with bound 0 is answered with 0 or less although the distance is positive: the marker max_d + 1 plus ins_c reads as within the bound |
| EditBounded.MarkerOnTheLeft | hw4/postgresql-9.1.2/contrib/fuzzystrmatch/levenshtein.c:380-388 | with del_c negative and the window in use, "aa" against "aa" with bound 0 gets a negative answer although the distance is 0 |
| EditBounded.EarlyExitExact | hw4/postgresql-9.1.2/contrib/fuzzystrmatch/levenshtein.c:155-158 | giving up at once is right in every call iff ins_c + del_c and sub_c are non-negative, or ins_c and del_c are both at most 0 |
| EditBounded.EarlyExitWrong | hw4/postgresql-9.1.2/contrib/fuzzystrmatch/levenshtein.c:155-158 | for all other penalties strings and a bound for which the routine gives up although the distance is within the bound |
| EditBounded.RowsRight | hw4/postgresql-9.1.2/contrib/fuzzystrmatch/levenshtein.c:226-402 | from a window that stands for row j - 1 the remaining rows give the distance, or bound + 1 if it is over the bound |
| EditBounded.FilledStands | hw4/postgresql-9.1.2/contrib/fuzzystrmatch/levenshtein.c:240-326 | from a row whose window stands for the matrix the recurrence makes the next such row, markers included |
| EditBounded.SlidStands | hw4/postgresql-9.1.2/contrib/fuzzystrmatch/levenshtein.c:345-393 | after sliding, every column outside the window is over the bound, the first column inside is not, and crossing ends mean that the whole row is over it |
| EditBounded.NextReaches | hw4/postgresql-9.1.2/contrib/fuzzystrmatch/levenshtein.c:345-402 | for all penalties: the column from which both rests are equally long never leaves a window that does not cross, so that the last cell read has been computed |
| Levenshtein.PlanWindow | hw4/postgresql-9.1.2/contrib/fuzzystrmatch/levenshtein.c:149-185 | for all penalties the decisions are those of PlanFor; with usable penalties the early answer is given only if the bound is exceeded, clamping sub_c changes no distance, a bound is kept only for non-negative penalties, and every column of row 0 outside the first window is over it; with non-negative ones the bound is dropped only if it cannot be exceeded |
| Levenshtein.AdvanceRow | hw4/postgresql-9.1.2/contrib/fuzzystrmatch/levenshtein.c:226-326 | the window is extended by a marked column and row j of the windowed recurrence is filled in over it, for all penalties |
| Levenshtein.SlideBoth | hw4/postgresql-9.1.2/contrib/fuzzystrmatch/levenshtein.c:345-389 | both ends pass exactly the columns that read as over the bound, which leaves the next window in the row, its markers in both rows |
| Levenshtein.FillRow | hw4/postgresql-9.1.2/contrib/fuzzystrmatch/levenshtein.c:240-326 | the inner loop makes the next row from the window above and the markers, without reading unset cells |
| Levenshtein.SlideStop | hw4/postgresql-9.1.2/contrib/fuzzystrmatch/levenshtein.c:357-367 | the stop column passes every column that reads as over the bound and stops behind the last that does not |
| Levenshtein.SlideStart | hw4/postgresql-9.1.2/contrib/fuzzystrmatch/levenshtein.c:369-389 | the start column does the same from the left, plants markers in both rows, and keeps s_data one column behind |
| EditMatrix.DistanceIsCheapestScript | hw4/postgresql-9.1.2/contrib/fuzzystrmatch/levenshtein.c:314-321 | some edit script attains the distance and none is cheaper |
| EditMatrix.DistanceIsCheapestEditSequence | hw4/postgresql-9.1.2/contrib/fuzzystrmatch/levenshtein.c:314-321 | nor is any sequence of single insertions, deletions and substitutions at arbitrary places cheaper, and one attains the distance |
| EditMatrix.NoScriptCheaper | hw4/postgresql-9.1.2/contrib/fuzzystrmatch/levenshtein.c:314-321 | every matrix cell is a lower bound for the scripts between its prefixes |
| EditMatrix.SomeScriptAttains | hw4/postgresql-9.1.2/contrib/fuzzystrmatch/levenshtein.c:314-321 | every matrix cell is the cost of some script between its prefixes |
| EditMatrix.TriangleInequality | hw4/postgresql-9.1.2/contrib/fuzzystrmatch/levenshtein.c:314-321 | the distance obeys the triangle inequality for all non-negative penalties |
| EditMatrix.SwapArguments | hw4/postgresql-9.1.2/contrib/fuzzystrmatch/levenshtein.c:314-321 | exchanging the strings is exchanging ins_c and del_c |
| EditMatrix.ZeroOnlyForEqual | hw4/postgresql-9.1.2/contrib/fuzzystrmatch/levenshtein.c:314-321 | with positive penalties distance 0 means equal strings |
| EditMatrix.WhichPenalty | hw4/postgresql-9.1.2/contrib/fuzzystrmatch/levenshtein.c:118-125 | nothing becomes a string at ins_c a character, a string becomes nothing at del_c a character, and one character becomes another at the lesser of sub_c and ins_c + del_c |
| EditMatrix.DiagonalGrows | hw4/postgresql-9.1.2/contrib/fuzzystrmatch/levenshtein.c:234-239 | matrix values never decrease along a diagonal |
| EditMatrix.ClampKeepsCells | hw4/postgresql-9.1.2/contrib/fuzzystrmatch/levenshtein.c:159-160 | replacing sub_c by min(sub_c, ins_c + del_c) changes no cell |
| EditScript.Compose | hw4/postgresql-9.1.2/contrib/fuzzystrmatch/levenshtein.c:314-321 | two scripts in a row fuse into one that costs no more |
| EditScript.Reverse | hw4/postgresql-9.1.2/contrib/fuzzystrmatch/levenshtein.c:314-321 | a script runs backwards at the same cost with insertion and deletion exchanged |
| EditWindow.NextStands | hw4/postgresql-9.1.2/contrib/fuzzystrmatch/levenshtein.c:314-321 | if three neighbours hold exact values or read as over the bound, so does the computed cell |
| EditWindow.SentinelStands | hw4/postgresql-9.1.2/contrib/fuzzystrmatch/levenshtein.c:242-242 | any value beyond the bound may stand for a cell that is over it |
| EditWindow.FrontierMoves | hw4/postgresql-9.1.2/contrib/fuzzystrmatch/levenshtein.c:234-244 | the right frontier moves at most one column a row |
| EditWindow.LeftStaysOver | hw4/postgresql-9.1.2/contrib/fuzzystrmatch/levenshtein.c:369-389 | a column left of the window is over the bound in the next row too |
| EditWindow.RightStaysOver | hw4/postgresql-9.1.2/contrib/fuzzystrmatch/levenshtein.c:357-367 | a column right of the window is over the bound in the next row |
| EditWindow.HopelessRow | hw4/postgresql-9.1.2/contrib/fuzzystrmatch/levenshtein.c:391-393 | if a whole row is over the bound the distance exceeds it |
| EditWindow.TheoreticalBounds | hw4/postgresql-9.1.2/contrib/fuzzystrmatch/levenshtein.c:155-163 | the theoretical minimum and maximum enclose the distance |
| EditWindow.InitialOutside | hw4/postgresql-9.1.2/contrib/fuzzystrmatch/levenshtein.c:178-183 | all columns of row 0 from the first stop column on are over the bound |
| EditWindow.ReadsOver | hw4/postgresql-9.1.2/contrib/fuzzystrmatch/levenshtein.c:363-365 | the test made while sliding decides exactly whether a cell is over the bound |
| QueryText.TokenDiscipline | hw4/postgresql-9.1.2/contrib/intarray/_int_bool.c:56-140 | whatever text is scanned, tokens come in an order the three scanner states allow, and parentheses never close too often |
| QueryText.StrtolUndoesSprintf | hw4/postgresql-9.1.2/contrib/intarray/_int_bool.c:70-95 | a printed 32-bit number is read back as itself and fits the digit buffer |
| QueryText.StrtolMeans | hw4/postgresql-9.1.2/contrib/intarray/_int_bool.c:70-95 | digit by digit: behind a leading zero a number is octal and ends at the first 8 or 9, otherwise it is decimal; a minus negates it |
| QueryText.IntTextOnly | hw4/postgresql-9.1.2/contrib/intarray/_int_bool.c:572-574 | of all decimal texts without a needless zero exactly the printed one reads as the number |
| QuerySpelling.DerivesIffSpelled | hw4/postgresql-9.1.2/contrib/intarray/_int_bool.c:56-140 | a text has a derivation iff it spells its tokens, said of the characters: each of ! & | ( ) is itself, a number is a run of at most 15 characters with that strtol value within 32 bits, and any number of blanks (none included) stands before, between and behind |
| QuerySpelling.AcceptsSpelled | hw4/postgresql-9.1.2/contrib/intarray/_int_bool.c:162-233 | the parser accepts iff the text spells a derivation that fits 16 places of the operator stack; the output is the reverse Polish form of its tree, and too-complex the error of every text that spells one that does not fit |
| QueryErrors.WhichError | hw4/postgresql-9.1.2/contrib/intarray/_int_bool.c:162-233 | a text that spells no derivation is too complex iff the tokens before the place where the scanner gives up, completed without further operators, form a derivation that does not fit the stack, and a syntax error otherwise |
| QueryGrammar.TextDerives | hw4/postgresql-9.1.2/contrib/intarray/_int_bool.c:56-140 | every text without a lexical error has a derivation of the grammar |
| QueryGrammar.TreeMeansE | hw4/postgresql-9.1.2/contrib/intarray/_int_bool.c:162-233 | the tree of a derivation has the truth of the grammar reading, under every assignment |
| QueryGrammar.BangsFit | hw4/postgresql-9.1.2/contrib/intarray/_int_bool.c:162-233 | a stack of n places has room for n operators ! in a row before a single operand, n - 1 behind one | or one &, and n - 2 behind both |
| QueryParser.AcceptsTheGrammar | hw4/postgresql-9.1.2/contrib/intarray/_int_bool.c:162-233 | a text is accepted iff it has a derivation that fits the operator stack; the output is then the reverse Polish form of its tree, and a derivation that does not fit means the too-complex error |
| QueryInput.WorkState.GetToken | hw4/postgresql-9.1.2/contrib/intarray/_int_bool.c:56-140 | each call delivers the next token of the text and leaves the parser state behind it; what the tokens are in terms of characters is QuerySpelling.DerivesIffSpelled |
| QueryInput.WorkState.PushQuery | hw4/postgresql-9.1.2/contrib/intarray/_int_bool.c:145-155 | one node is added to the output and counted |
| QueryInput.WorkState.PopTight | hw4/postgresql-9.1.2/contrib/intarray/_int_bool.c:178-196 | ! and & are moved from the operator stack to the output as their priority demands |
| QueryInput.WorkState.MakePol | hw4/postgresql-9.1.2/contrib/intarray/_int_bool.c:162-233 | the recursive parser accepts, fails or reports too-complex as the token sequence demands, and its output is the specified one |
| QueryInput.BqarrIn | hw4/postgresql-9.1.2/contrib/intarray/_int_bool.c:485-545 | a text is accepted iff it spells a derivation that fits 16 places of the operator stack, and then the items are those of the tree of every derivation it spells, with their links; a text that spells one that does not fit is too complex, and of the others WhichError tells the error |
| QueryInput.SameTree | hw4/postgresql-9.1.2/contrib/intarray/_int_bool.c:162-233 | an accepted text has only one reading |
| QueryInput.PolishInjective | hw4/postgresql-9.1.2/contrib/intarray/_int_bool.c:451-479 | different queries have different reverse Polish forms |
| QueryInput.ExecuteMeansTheText | hw4/postgresql-9.1.2/contrib/intarray/_int_bool.c:275-305 | running execute over the items built for an accepted text gives the grammar reading of the text, for every assignment, if every right operand fits the link field |
| BoolQuery.FindOprnd | hw4/postgresql-9.1.2/contrib/intarray/_int_bool.c:451-479 | findoprnd fills in exactly the links of the query, each landing on the root of its left operand, and touches nothing else |
| BoolQuery.LinksRightIffFit | hw4/postgresql-9.1.2/contrib/intarray/_int_bool.c:474-476 | the int2 links are right iff every right operand has at most 32767 items |
| BoolQuery.LongOperandWraps | hw4/postgresql-9.1.2/contrib/intarray/_int_bool.c:474-476 | the link over a right operand of more than 32767 items is never the right one: with m the length plus one modulo 65536 it points past the array if m is over 32768, at the operator itself if m is 0, and at an item of the right operand otherwise |
| BoolQuery.LinkedIsWellLinked | hw4/postgresql-9.1.2/contrib/intarray/_int_bool.c:451-479 | right links stay inside the array and point back, so interpretation ends |
| BoolQuery.ExecuteComputesEval | hw4/postgresql-9.1.2/contrib/intarray/_int_bool.c:275-305 | execute computes the truth of the query exactly with calcnot, and its over-approximation without |
| BoolQuery.LossyNeverLoses | hw4/postgresql-9.1.2/contrib/intarray/_int_bool.c:275-305 | if the exact query is true of some values, evaluation without calcnot is true of any superset, at every level |
| BoolQuery.LossyIffReplaced | hw4/postgresql-9.1.2/contrib/intarray/_int_bool.c:275-305 | evaluation without calcnot answers yes iff some queries in place of the outermost NOTs make the query true |
| BoolQuery.RequiredValuesAreNeeded | hw4/postgresql-9.1.2/contrib/intarray/_int_bool.c:374-416 | a query with required values is false of every array that holds none of its values |
| BoolQuery.RequiredIffNever | hw4/postgresql-9.1.2/contrib/intarray/_int_bool.c:374-416 | a value is required iff an array without values is no match whatever stands in place of the outermost NOTs |
| QueryPrinter.Printer.Infix | hw4/postgresql-9.1.2/contrib/intarray/_int_bool.c:566-637 | infix appends the text of the query it walks over and steps back over its items, whatever the links are |
| QueryPrinter.BqarrOut | hw4/postgresql-9.1.2/contrib/intarray/_int_bool.c:640-659 | bqarr_out prints the text of the whole query |
| QueryPrinter.PrintReadRoundTrip | hw4/postgresql-9.1.2/contrib/intarray/_int_bool.c:566-637 | printing any query over 32-bit values and reading it back succeeds with stack depth 3, keeps the truth under every assignment, and prints to the same text |
| QueryPrinter.RereadLinksFit | hw4/postgresql-9.1.2/contrib/intarray/_int_bool.c:566-637 | reading printed text back keeps all links within the link field |
| QueryPrinter.ReadPrintRead | hw4/postgresql-9.1.2/contrib/intarray/_int_bool.c:485-659 | for every text with a derivation, what bqarr_out prints of the items is accepted again within the operator stack, has the meaning of the text under every assignment, and prints to itself |
| QueryLayout.PrintedForm | hw4/postgresql-9.1.2/contrib/intarray/_int_bool.c:566-659 | bqarr_out writes the only text of this form: the tokens of a derivation without needless parentheses, with blanks around & and | and inside parentheses, whose tree is the query with its chains of & grouped to the left |
| QueryLayout.RereadIsGrouped | hw4/postgresql-9.1.2/contrib/intarray/_int_bool.c:566-637 | reading the printed text gives the query back with its chains of & grouped to the left, and nothing else changed |
| QueryLayout.GroupedKeeps | hw4/postgresql-9.1.2/contrib/intarray/_int_bool.c:566-637 | grouping to the left keeps the values in their order and the truth, and leaves a query grouped so alone |
| QueryPrinter.LongOperandAccepted | hw4/postgresql-9.1.2/contrib/intarray/_int_bool.c:162-233 | the text 1 | 2 & ... & 2 with k operators & is accepted for every k, and its links fit iff k is below 16384 |
| QueryGin.QueryExtract | hw4/postgresql-9.1.2/contrib/intarray/_int_gin.c:25-59 | the extracted entries are the primitive values in order, and the full scan is chosen iff no value is required |
| QueryGin.ValsOfExact | hw4/postgresql-9.1.2/contrib/intarray/_int_gin.c:36-57 | the entries of a query are its values from left to right |
| QueryGin.GinBoolConsistent | hw4/postgresql-9.1.2/contrib/intarray/_int_bool.c:346-372 | if check[j] tells whether the j-th value is present, the answer is direct evaluation |
| QueryGin.GinScanExact | hw4/postgresql-9.1.2/contrib/intarray/_int_gin.c:169-176 | the arrays found by the scan are exactly those the query is true of |
| IntTool.ISort | hw4/postgresql-9.1.2/contrib/intarray/_int_tool.c:188-221 | the array becomes ascending with the same elements, and the result tells whether there are duplicates |
| IntTool.IntUnique | hw4/postgresql-9.1.2/contrib/intarray/_int_tool.c:291-311 | sorted, strictly increasing, and the same set of elements |
| IntTool.PrepareArr | hw4/postgresql-9.1.2/contrib/intarray/_int.h:36-42 | an array becomes strictly increasing with the same elements |
| IntTool.InnerIntContains | hw4/postgresql-9.1.2/contrib/intarray/_int_tool.c:12-44 | on sorted arrays: is every element of b in a? |
| IntTool.InnerIntOverlap | hw4/postgresql-9.1.2/contrib/intarray/_int_tool.c:47-74 | on sorted arrays: do they share an element? |
| IntTool.InnerIntUnion | hw4/postgresql-9.1.2/contrib/intarray/_int_tool.c:76-131 | the strictly increasing list of the union |
| RangeKey.Compress | hw4/postgresql-9.1.2/contrib/intarray/_int_gist.c:187-219 | for every set of int4 values: 200 or more elements end as exactly 200 endpoints that cut the set into blocks, bridging smallest gaps only iff no gap is 2^31 wide or wider (a wider one wraps around and is bridged first); fewer elements are left alone |
| RangeKey.CompressedIffNarrow | hw4/postgresql-9.1.2/contrib/intarray/_int_gist.c:200-211 | a cut that keeps no gap of 2^31 or more bridges smallest gaps only iff the set has no such gap |
| RangeKey.SmallestGap | hw4/postgresql-9.1.2/contrib/intarray/_int_gist.c:202-208 | for every set of int4 values the candidate is a gap between two stored ranges, with the smallest 32-bit difference |
| RangeKey.CloseGap | hw4/postgresql-9.1.2/contrib/intarray/_int_gist.c:209-209 | the memmove removes the two endpoints of the candidate gap |
| RangeKey.DropBreak | hw4/postgresql-9.1.2/contrib/intarray/_int_gist.c:209-210 | dropping the endpoints on both sides of a gap leaves the endpoints of a cut without it |
| RangeKey.InternalSize | hw4/postgresql-9.1.2/contrib/intarray/_int_tool.c:275-288 | exactly the number of elements the expansion has |
| RangeKey.Decompress | hw4/postgresql-9.1.2/contrib/intarray/_int_gist.c:224-287 | the expansion of the ranges, written into a buffer of exactly its size, unless the last range ends at 2147483647: then, and only then, the loop goes on past the end of the buffer; this includes leaf arrays of an even number of elements from 200 on |
| RangeKey.WriteRun | hw4/postgresql-9.1.2/contrib/intarray/_int_gist.c:275-278 | with a counter that wraps like an int the loop over one range writes the range, or runs past the buffer iff the range ends at 2147483647 |
| RangeKey.RangeEndsIff | hw4/postgresql-9.1.2/contrib/intarray/_int_gist.c:276-276 | the wrapping counter ever exceeds the upper end of a range iff that is below 2147483647 |
| RangeKey.EveryRangeEnds | hw4/postgresql-9.1.2/contrib/intarray/_int_gist.c:187-278 | for every set of int4 values and every cut of it the loops over all ranges end iff 2147483647 is not in the set |
| RangeKey.LongLeafReadAsRanges | hw4/postgresql-9.1.2/contrib/intarray/_int_gist.c:153-165 | a leaf array of 200 or more elements is not compressed but read as ranges: for an even number of elements the reading ends with the same set iff they come in adjacent pairs and 2147483647 is not among them |
| RangeKey.CompressionCovers | hw4/postgresql-9.1.2/contrib/intarray/_int_gist.c:187-287 | for every cut: ranges are disjoint and ordered, their expansion is a strictly increasing superset of the set, and all endpoints come from the set |
| RangeKey.ExpandMembers | hw4/postgresql-9.1.2/contrib/intarray/_int_gist.c:275-278 | the expansion holds exactly the integers of the ranges |
| RangeKey.ExpandStrict | hw4/postgresql-9.1.2/contrib/intarray/_int_gist.c:275-278 | the expansion is strictly increasing |
| RangeOptimal.OptimalIffCompressed | hw4/postgresql-9.1.2/contrib/intarray/_int_gist.c:195-211 | the stored ranges cover as few integers as any cover with as many intervals iff only smallest gaps are bridged; with Compress, iff no gap is 2^31 wide or wider |
| RangeOptimal.CompressionOptimal | hw4/postgresql-9.1.2/contrib/intarray/_int_gist.c:195-211 | no cover of the set by as many intervals covers fewer integers |
| RangeOptimal.SwapBeats | hw4/postgresql-9.1.2/contrib/intarray/_int_gist.c:203-208 | if a gap is bridged while a narrower one is kept, some cover with as many intervals covers fewer integers |
| RangeOptimal.CoverBounds | hw4/postgresql-9.1.2/contrib/intarray/_int_gist.c:195-211 | what any cover must cover, and how many gaps it must span |
| RangeOptimal.Exchange | hw4/postgresql-9.1.2/contrib/intarray/_int_gist.c:203-208 | exchanging bridged gaps for kept ones never pays |
| IntGist.CheckConditionArr | hw4/postgresql-9.1.2/contrib/intarray/_int_bool.c:244-264 | the loop computes the binary search Searched, which decides membership in a sorted array |
| IntGist.ExecConsistent | hw4/postgresql-9.1.2/contrib/intarray/_int_bool.c:319-330 | the query evaluated on a sorted array by binary search, exactly or as an over-approximation |
| IntGist.GIntSame | hw4/postgresql-9.1.2/contrib/intarray/_int_gist.c:312-345 | two sorted arrays hold the same elements |
| IntGist.GIntUnion | hw4/postgresql-9.1.2/contrib/intarray/_int_gist.c:104-139 | strictly increasing, and exactly the elements of the entries |
| IntGist.GIntConsistent | hw4/postgresql-9.1.2/contrib/intarray/_int_gist.c:39-102 | on leaves the plain set operator; on pages yes iff some array within the key, for contained-by a non-empty one, meets the condition (boolean queries: PagePreciseBoolean) |
| IntGist.NeverPrunes | hw4/postgresql-9.1.2/contrib/intarray/_int_gist.c:67-98 | a page key covering a matching leaf passes, for overlap, same, contains, boolean, and contained-by if the leaf is non-empty |
| IntGist.PagePrecise | hw4/postgresql-9.1.2/contrib/intarray/_int_gist.c:67-98 | the page test says yes iff some array within the key, for contained-by a non-empty one, meets the condition |
| IntGist.PagePreciseBoolean | hw4/postgresql-9.1.2/contrib/intarray/_int_gist.c:53-61 | for a boolean query the page test says yes iff some array within the key meets the query with something in place of its outermost NOTs |
| IntGist.ContainedBySafeIffNonEmpty | hw4/postgresql-9.1.2/contrib/intarray/_int_gist.c:88-96 | for contained-by every covering page passes iff the leaf is not empty |
| IntGist.PageKey | hw4/postgresql-9.1.2/contrib/intarray/_int_gist.c:104-222 | uniting and compressing the keys of the children, for any int4 values, gives the key of the union |
| IntGist.UnionKeyValid | hw4/postgresql-9.1.2/contrib/intarray/_int_gist.c:104-222 | a page with such a key is valid: its opened key covers every leaf below it |
| IntGist.AdjustKey | hw4/postgresql-9.1.2/src/backend/access/gist/gistutil.c:319-365 | a page key that cannot be opened makes the insertion run past the buffer; from any other the method makes the key of the union with the new entry, or keeps the stored key if the entry adds nothing |
| IntGist.AdjustedCovers | hw4/postgresql-9.1.2/src/backend/access/gist/gistutil.c:319-365 | such a key covers what the page covered, and the entry |
| IntGist.StoredOpens | hw4/postgresql-9.1.2/contrib/intarray/_int_gist.c:187-278 | what compression stores for a set of int4 values can be opened again iff the set has fewer than 200 elements or does not hold 2147483647 |
| IntGist.SearchIsExact | hw4/postgresql-9.1.2/contrib/intarray/_int_gist.c:39-287 | over every tree whose opened page keys cover the leaves below them the search finds exactly the matching leaves, for every strategy (contained-by: the non-empty ones); that the search ends is a matter of its own (SearchesEndIff) |
| IntGist.SearchesEndIff | hw4/postgresql-9.1.2/contrib/intarray/_int_gist.c:224-287 | every search of a tree ends iff all its page keys can be opened, that is, no compressed one ends at 2147483647 |
| IntGistGrowth.StepKeeps | hw4/postgresql-9.1.2/src/backend/access/gist/gist.c:611-800 | adjusting a downlink, splitting a page or the root with union keys, and adding an entry below covering downlinks each keep the tree valid and its leaves, but for the one added |
| IntGistGrowth.RunKeeps | hw4/postgresql-9.1.2/src/backend/access/gist/gist.c:611-800 | after any run of such changes the tree is valid and has the leaves of the first tree and those added |
| IntGistGrowth.GrownSearchIsExact | hw4/postgresql-9.1.2/src/backend/access/gist/gist.c:611-800 | in an index grown from an empty one by any run of such changes a search finds exactly the entries added that match (contained-by: the non-empty ones), and it ends if no entry holds 2147483647 |
| IntGistGrowth.RunSmall | hw4/postgresql-9.1.2/src/backend/access/gist/gist.c:611-800 | as long as no entry holds 2147483647 no opened page key does, so that each of them can be opened |
| Signature.CompressLeaf | hw4/postgresql-9.1.2/contrib/intarray/_intbig_gist.c:149-178 | the signature of an array has exactly the bits its values hash to |
| Signature.CompressInner | hw4/postgresql-9.1.2/contrib/intarray/_intbig_gist.c:179-213 | an inner key keeps its bits, all set becoming the flag |
| Signature.UnionKey | hw4/postgresql-9.1.2/contrib/intarray/_intbig_gist.c:267-278 | the bits are or-ed in, or the flag is reported |
| Signature.GIntbigUnion | hw4/postgresql-9.1.2/contrib/intarray/_intbig_gist.c:280-310 | a bit of the union is set iff it is set in some entry |
| Signature.GIntbigConsistent | hw4/postgresql-9.1.2/contrib/intarray/_intbig_gist.c:503-613 | yes for a key with the flag; for a key with bits and the set operators yes iff the signature leaves the condition open: on a leaf, if some array with just this signature meets it, on a page, if some array whose bits are in it does, not empty for contained-by |
| Signature.SignPrecise | hw4/postgresql-9.1.2/contrib/intarray/_intbig_gist.c:503-613 | the same of the test itself, in both directions |
| Signature.SignPreciseBoolean | hw4/postgresql-9.1.2/contrib/intarray/_intbig_gist.c:519-526 | for boolean queries the answer is yes iff such an array meets the query with something in place of its outermost NOTs |
| Signature.HashVals | hw4/postgresql-9.1.2/contrib/intarray/_int.h:65-65 | numbers below 2016 are their own bit, the next ones repeat them, and negative ones count from 2^32 down |
| Signature.SignAnswers | hw4/postgresql-9.1.2/contrib/intarray/_int_bool.c:310-316 | signconsistent evaluates the query on the bits, as an over-approximation |
| Signature.SignNeverLoses | hw4/postgresql-9.1.2/contrib/intarray/_intbig_gist.c:503-613 | an array that matches passes the test on its own signature and on any that covers it, the flag included |
| Signature.SignSearchComplete | hw4/postgresql-9.1.2/contrib/intarray/_intbig_gist.c:267-310 | a search over signatures reaches every matching leaf (contained-by: every non-empty one) |
| Signature.SignContainedBySafeIffNonEmpty | hw4/postgresql-9.1.2/contrib/intarray/_intbig_gist.c:574-608 | for contained-by every covering page signature passes iff the array is not empty |
| HStorePairs.ConcatIsOverride | hw4/postgresql-9.1.2/contrib/hstore/hstore_op.c:514-556 | merging two sorted lists with the right operand winning is map override |
| HStorePairs.DeleteKeysIsRemoval | hw4/postgresql-9.1.2/contrib/hstore/hstore_op.c:322-357 | merging with a sorted key list removes exactly those keys |
| HStorePairs.DeletePairsIsRemoval | hw4/postgresql-9.1.2/contrib/hstore/hstore_op.c:405-457 | merging with a second list removes exactly the pairs both hold |
| HStorePairs.SortedUnique | hw4/postgresql-9.1.2/contrib/hstore/hstore_op.c:1082-1086 | a map has only one sorted list |
| HStorePairs.KeyCmpMeaning | hw4/postgresql-9.1.2/contrib/hstore/hstore_op.c:51-54 | shorter keys come first, keys of one length in the order of the first bytes that differ |
| HStoreLayout.UnpackPack | hw4/postgresql-9.1.2/contrib/hstore/hstore.h:28-35 | the macros read every item of a packed list back, null and empty string apart |
| HStoreLayout.PackMeans | hw4/postgresql-9.1.2/contrib/hstore/hstore.h:18-63 | eight bytes of header and eight a pair; the words of a pair are where its key and value end, plus 0x80000000 on the first word and 0x40000000 for nulls; keys and values follow one after the other |
| HStoreLayout.PackInjective | hw4/postgresql-9.1.2/contrib/hstore/hstore.h:44-74 | buffer, count and entries determine the list |
| HStoreBuild.Builder.CopyItem | hw4/postgresql-9.1.2/contrib/hstore/hstore.h:90-97 | bytes and two end positions are added for the item, behind those already there |
| HStoreBuild.Builder.AddItem | hw4/postgresql-9.1.2/contrib/hstore/hstore.h:103-117 | the same from separate key and value, a null without bytes |
| HStoreBuild.MoveDown | hw4/postgresql-9.1.2/contrib/hstore/hstore.h:128-128 | the overlapping memmove delivers the old bytes |
| HStoreBuild.Builder.Finalize | hw4/postgresql-9.1.2/contrib/hstore/hstore.h:120-131 | whatever room was reserved, memory then holds exactly the packed items: first mark on entry 0 only, buffer right behind the entries, size CALCDATASIZE |
| HStoreOps.HStoreConcat | hw4/postgresql-9.1.2/contrib/hstore/hstore_op.c:465-561 | the result is a packed value (also for an empty operand) and denotes the override; it is refused iff the request exceeds palloc's limit |
| HStoreOps.HStoreDeleteHStore | hw4/postgresql-9.1.2/contrib/hstore/hstore_op.c:365-462 | the result is a packed value denoting the first map without the pairs the second holds too |
| HStoreOps.CopyWhole | hw4/postgresql-9.1.2/contrib/hstore/hstore.h:133-138 | an unchanged copy with HS_FIXSIZE is the packed value again |
| HStoreOps.PackedReads | hw4/postgresql-9.1.2/contrib/hstore/hstore.h:66-74 | reading a packed value item by item gives its list, the items filling the buffer |
| HStoreOps.ValuesDiffer | hw4/postgresql-9.1.2/contrib/hstore/hstore_op.c:434-440 | null marks, lengths and bytes decide whether two values differ |
| HStoreUnique.UniquePairs | hw4/postgresql-9.1.2/contrib/hstore/hstore_io.c:307-347 | in place, the first of every run of equal keys is kept, and buflen is their length |
| HStoreUnique.FirstsMeaning | hw4/postgresql-9.1.2/contrib/hstore/hstore_io.c:278-347 | for whatever qsort leaves: keys strictly increasing, every input key present, every value an input value of its key |
| HStoreUnique.FirstsOfOrdered | hw4/postgresql-9.1.2/contrib/hstore/hstore_io.c:290-296 | of equal keys one is kept that is freeable only if all are |
| HStoreUnique.PackPairs | hw4/postgresql-9.1.2/contrib/hstore/hstore_io.c:370-397 | the pairs are stored packed, unless the request exceeds palloc's limit |
| HStoreUnique.ArrayToPairs | hw4/postgresql-9.1.2/contrib/hstore/hstore_op.c:74-113 | sorted keys, the non-null elements of the array |
| HStoreArrays.HStoreDeleteArray | hw4/postgresql-9.1.2/contrib/hstore/hstore_op.c:286-362 | exactly the keys of the array are gone, and the result is packed |
| HStoreArrays.HStoreSlice | hw4/postgresql-9.1.2/contrib/hstore/hstore_op.c:629-687 | the part of the map on the keys of the array, packed |
| HStoreArrays.HStoreExistsAny | hw4/postgresql-9.1.2/contrib/hstore/hstore_op.c:153-184 | true iff the map holds some key of the array |
| HStoreArrays.HStoreExistsAll | hw4/postgresql-9.1.2/contrib/hstore/hstore_op.c:188-219 | true iff the map holds every key of the array |
| HStoreFind.FindKey | hw4/postgresql-9.1.2/contrib/hstore/hstore_op.c:36-71 | the index of the key if it is there, and a bound with only smaller or equal keys before it |
| HStoreFind.BoundMeaning | hw4/postgresql-9.1.2/contrib/hstore/hstore_op.c:30-35 | what a lower bound says about all keys before it |
| HStoreFind.BoundForNext | hw4/postgresql-9.1.2/contrib/hstore/hstore_op.c:30-35 | a bound left by one search is right for every later, larger key |
| HStoreFind.FindNext | hw4/postgresql-9.1.2/contrib/hstore/hstore_op.c:165-170 | searching increasing keys with the remembered bound answers as full searches do |
| HStoreFind.HStoreContains | hw4/postgresql-9.1.2/contrib/hstore/hstore_op.c:968-1011 | true iff the second map is a submap of the first |
| HStoreOrder.HStoreCmp | hw4/postgresql-9.1.2/contrib/hstore/hstore_op.c:1089-1167 | computes the order whose meaning is told by BuffersDecide, CountsDecide and FirstItemDecides, and 0 iff both values denote the same map |
| HStoreOrder.BuffersDecide | hw4/postgresql-9.1.2/contrib/hstore/hstore_op.c:1117-1127 | of different buffers the one with the larger first differing byte is the greater, or the one that goes on behind the end of the other |
| HStoreOrder.CountsDecide | hw4/postgresql-9.1.2/contrib/hstore/hstore_op.c:1128-1131 | of equal buffers the one with more pairs is the greater |
| HStoreOrder.FirstItemDecides | hw4/postgresql-9.1.2/contrib/hstore/hstore_op.c:1132-1152 | of equal buffers and counts the first item that differs decides: the longer key is the greater, then the longer value; else a null stands against an empty string, and the null is the greater |
| HStoreOrder.CmpTotalOrder | hw4/postgresql-9.1.2/contrib/hstore/hstore_op.c:1120-1157 | antisymmetric and transitive |
| HStoreOrder.CmpZero | hw4/postgresql-9.1.2/contrib/hstore/hstore_op.c:1082-1086 | equal in the order iff equal as maps; null and empty string stay apart |
| HStoreText.HSParser.GetVal | hw4/postgresql-9.1.2/contrib/hstore/hstore_io.c:55-170 | the word scanner delivers the specified word, quoting flag, place or error; what is a word in terms of characters is HStoreGrammar.ParseIffListed |
| HStoreText.HSParser.ParseHstore | hw4/postgresql-9.1.2/contrib/hstore/hstore_io.c:179-276 | the parser delivers the specified pairs or the specified error |
| HStoreGrammar.ParseIffListed | hw4/postgresql-9.1.2/contrib/hstore/hstore_io.c:55-276 | a text is parsed to a list of pairs iff, up to its first zero byte, it spells the list: words bare or in quotes, with backslashes; arrows, commas, white space around; a bare null in any case is the null value and nothing else is |
| HStoreGrammar.AcceptedIffListed | hw4/postgresql-9.1.2/contrib/hstore/hstore_io.c:55-276 | the texts accepted are exactly those that spell a list, and no text spells two |
| HStoreErrors.SyntaxErrorMeans | hw4/postgresql-9.1.2/contrib/hstore/hstore_io.c:55-276 | a syntax error names the first character no list can go on with: nothing that begins with the text up to it is a list, and something that begins with the text before it is |
| HStoreErrors.UnexpectedEndMeans | hw4/postgresql-9.1.2/contrib/hstore/hstore_io.c:55-276 | a text that ends unexpectedly can be completed to a list, unless a word is then too long |
| HStoreErrors.TooLongMeans | hw4/postgresql-9.1.2/contrib/hstore/hstore_io.c:349-367 | the error for long words occurs in texts of more than 0x3fffffff characters only |
| HStorePrinter.Cpw | hw4/postgresql-9.1.2/contrib/hstore/hstore_io.c:1087-1099 | the string is copied with a backslash before each quote and backslash and nowhere else (EscapedFirst, EscapedPlain) |
| HStorePrinter.EscapedCount | hw4/postgresql-9.1.2/contrib/hstore/hstore_io.c:1087-1099 | as many characters are added as the string has quotes and backslashes |
| HStorePrinter.EscapedPlain | hw4/postgresql-9.1.2/contrib/hstore/hstore_io.c:1087-1099 | a string without them is printed between quotes as it is |
| HStorePrinter.EscapedFirst | hw4/postgresql-9.1.2/contrib/hstore/hstore_io.c:1087-1099 | the first such character gets a backslash right before it, and the rest is printed in the same way |
| HStorePrinter.ItemPlain | hw4/postgresql-9.1.2/contrib/hstore/hstore_io.c:1147-1170 | key and value in quotes with an arrow between them, null as the bare word NULL |
| HStorePrinter.ListJoin | hw4/postgresql-9.1.2/contrib/hstore/hstore_io.c:1165-1170 | items are separated by a comma and a blank |
| HStorePrinter.HStoreOut | hw4/postgresql-9.1.2/contrib/hstore/hstore_io.c:1103-1174 | the text of the value (ItemPlain, ListJoin) and a zero byte, never outside the buffer estimated before |
| HStorePrinter.TextFits | hw4/postgresql-9.1.2/contrib/hstore/hstore_io.c:1132-1140 | text and terminator are at most the estimate |
| HStoreInOut.EscapedScan | hw4/postgresql-9.1.2/contrib/hstore/hstore_io.c:124-144 | inside quotes the scanner undoes the escaping |
| HStoreInOut.ParseItem | hw4/postgresql-9.1.2/contrib/hstore/hstore_io.c:191-255 | a printed item is read as its pair, null as null |
| HStoreInOut.RoundTrip | hw4/postgresql-9.1.2/contrib/hstore/hstore_io.c:400-418 | for every packed value without zero bytes, parsing the printed text gives exactly its pairs, null kept apart from "NULL" and "" |
| HStoreInOut.UniqueRestores | hw4/postgresql-9.1.2/contrib/hstore/hstore_io.c:307-347 | of the pairs of a sorted list, removing duplicates after any sorting restores the list |
| HStoreInOut.TextInjective | hw4/postgresql-9.1.2/contrib/hstore/hstore_io.c:1151-1163 | different values have different texts, so null, "NULL" and "" stay apart |
| HStoreInOut.HStoreIn | hw4/postgresql-9.1.2/contrib/hstore/hstore_io.c:402-418 | refused iff the text spells no list of pairs; otherwise a packed value of the pairs it spells, or palloc's refusal |
| HStoreInOut.PrintAndRead | hw4/postgresql-9.1.2/contrib/hstore/hstore_io.c:1103-1174 | out and in again stores the same packed value |
| HStoreInOut.AcceptedIsClean | hw4/postgresql-9.1.2/contrib/hstore/hstore_io.c:55-276 | whatever text is accepted, no key and no value of the result holds a zero byte |
| HStoreInOut.ReadPrintRead | hw4/postgresql-9.1.2/contrib/hstore/hstore_io.c:400-418 | for every text that makes a value, the value is printed to a text that makes the same list again, whatever qsort does both times |
| Memcmp.BufferTransitive | hw4/postgresql-9.1.2/contrib/hstore/hstore_op.c:1120-1127 | memcmp over the shorter length followed by the lengths is transitive, with equality only if both steps are |
| Memcmp.BufferMeaning | hw4/postgresql-9.1.2/contrib/hstore/hstore_op.c:1117-1127 | the first bytes that differ decide, and what goes on behind the end of the other is the greater |
| Ltree.PathOrder | hw4/postgresql-9.1.2/contrib/ltree/ltree_op.c:60-86 | the lexicographic order with prefixes first is antisymmetric and equal only for equal paths |
| Ltree.PathTransitive | hw4/postgresql-9.1.2/contrib/ltree/ltree_op.c:60-86 | it is transitive |
| Ltree.PathCmpMeaning | hw4/postgresql-9.1.2/contrib/ltree/ltree_op.c:60-86 | the first labels that differ decide, and a path comes before its extensions |
| Ltree.LtreeCompare | hw4/postgresql-9.1.2/contrib/ltree/ltree_op.c:60-86 | the exact number computed, for any memcmp with the sign C promises; its sign is that order |
| Ltree.WeightedMeans | hw4/postgresql-9.1.2/contrib/ltree/ltree_op.c:60-86 | the number behind d equal levels: ten times the difference of bytes, label lengths or level counts, times one more than the levels of the first path that are left |
| Ltree.CompareFitsInt | hw4/postgresql-9.1.2/contrib/ltree/ltree_op.c:74-85 | for any memcmp that returns at most 255 either way the number fits a 32-bit int iff the first path does not extend the second by more than 14653 levels |
| Ltree.LongExtensionWraps | hw4/postgresql-9.1.2/contrib/ltree/ltree_op.c:85-85 | with one level more the longer path compares as the smaller one in 32 bits |
| Ltree.InnerIsParent | hw4/postgresql-9.1.2/contrib/ltree/ltree_op.c:154-176 | true iff the second path is a prefix of the first |
| Ltree.CutMonotone | hw4/postgresql-9.1.2/contrib/ltree/ltree_gist.c:479-486 | cutting two paths to the same length keeps their order |
| LtreeGist.GistIsParent | hw4/postgresql-9.1.2/contrib/ltree/ltree_gist.c:443-461 | true iff some prefix of the query lies between the bounds; the query is restored |
| LtreeGist.CutBetweenExact | hw4/postgresql-9.1.2/contrib/ltree/ltree_gist.c:472-495 | the test on shortened bounds holds iff some extension of the query lies between the bounds |
| LtreeGist.GistIsChild | hw4/postgresql-9.1.2/contrib/ltree/ltree_gist.c:472-495 | true iff some extension of the query lies between the bounds; the bounds are not changed |
| LtreeGist.LtreeConsistent | hw4/postgresql-9.1.2/contrib/ltree/ltree_gist.c:639-687 | exact on leaves; on pages true iff a path between the bounds could answer |
| LtreeGist.NeverPrunes | hw4/postgresql-9.1.2/contrib/ltree/ltree_gist.c:639-687 | a page enclosing a path that answers is never pruned, for all seven strategies |
| LtreeGist.ExactlyOneAnswers | hw4/postgresql-9.1.2/contrib/ltree/ltree_gist.c:641-672 | of less, equal and greater exactly one is the answer of a leaf, and the other two orders follow from them |
| LtreeGist.LessMeans | hw4/postgresql-9.1.2/contrib/ltree/ltree_gist.c:641-647 | a leaf is less if its first label that differs is, or if the query extends it |
| LtreeGist.PageByBounds | hw4/postgresql-9.1.2/contrib/ltree/ltree_gist.c:641-672 | on a page the orders are decided by one bound, the strict ones like the others, and equality by both |
| LtreeGist.LtreeUnion | hw4/postgresql-9.1.2/contrib/ltree/ltree_gist.c:185-249 | the least left and the greatest right bound of the entries, copied |
| LtreeGist.UnionBounds | hw4/postgresql-9.1.2/contrib/ltree/ltree_gist.c:185-249 | a page whose bounds are these of its children encloses all of them |
| LtreeGist.SearchIsExact | hw4/postgresql-9.1.2/contrib/ltree/ltree_gist.c:168-687 | over every tree with bounds made this way the search finds exactly the paths that answer |

## Left out

- Levenshtein: multibyte characters (`pg_mblen`, the cached character lengths) are single characters, and distances are unbounded integers.
- QueryPrinter.PrintReadRoundTrip: values outside 32 bits do not occur, and the growth of the output buffer (`RESIZEBUF`) is a string that grows.
- QueryInput.ExecuteMeansTheText: texts with a right operand of more than 32767 items, whose links are wrong in one of three ways (`BoolQuery.LongOperandWraps`).
- QueryInput.BqarrIn: the error of `check_stack_depth` for deeply nested texts, which depends on the memory of the server; the same check stands in execute and contains_required_value.
- The error "empty query" of bqarr_in, which no text reaches because the scanner rejects an empty operand first.
- RangeKey.Decompress: leaf arrays of 200 or more elements and odd number, of which the original reads one element too many as the end of a range; the number of elements of an expansion is an unbounded integer, so that neither palloc's limit on its size nor the wrap-around of that size is modelled.
- IntGist.SearchIsExact: the keys are the expansions of the stored ranges, whether or not the loop that makes them ends (see `IntGist.SearchesEndIff`); contained-by is stated for non-empty leaves (see `IntGist.ContainedBySafeIffNonEmpty`), and leaf arrays have fewer than 200 elements (see `RangeKey.LongLeafReadAsRanges`).
- IntGistGrowth.StepKeeps: which child is chosen and how picksplit distributes entries is left open; locking, crash recovery and vacuum are not part of this model.
- Signature.SignSearchComplete: signatures are lossy, so the search alone is complete but not exact (how far a single answer is exact is `Signature.SignPrecise`); the recheck is not part of this model.
- `inner_int_inter`, which looks in front of its output before anything has been written there.
- Penalty, picksplit and size functions of the index types: they decide the shape of a tree, not what is found (`IntGistGrowth.GrownSearchIsExact`).
- The non-boolean GIN strategies of intarray, which add only set tests on `check`.
- HStoreLayout.UnpackPack: a word is one cell of memory, not four bytes in some byte order; end positions, marks, counts and sizes are the numbers of the source.
- HStoreOps.HStoreConcat: lengths are unbounded integers checked against palloc's limit; nothing is said of int overflow below it.
- HStorePrinter.HStoreOut: overflow of the estimate for values near a gigabyte; the code's own comment says that these cannot be printed.
- HStoreInOut.RoundTrip: keys or values with zero bytes, which a C string cannot carry.
- HStoreText: growth of the word buffer (`RESIZEPRSBUF`) and of the array of pairs; both are sequences that grow.
- Further hstore functions (single-key delete, akeys, avals, each, records, send and receive, old formats): thin loops over the same macros.
- HStoreOrder.HStoreCmp: stated, like all of hstore and the ltree index, with a memcmp that returns -1, 0 or 1; with another the number returned has the same sign.
- Ltree.LtreeCompare: the number is a mathematical integer; when it fits an int is `Ltree.CompareFitsInt`.
- LtreeGist.LtreeUnion: the signature part of a page key, used only by lquery and ltxtquery.
- lquery and ltxtquery matching, cube, btree_gist, btree_gin, citext, isn, dblink and the other contrib modules.
- The fmgr calling convention, detoasting, memory contexts, qsort itself, and the text of error messages.
