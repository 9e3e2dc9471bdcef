# minimat: the vector store and the command loop

`minimat` is a console calculator for 3-component vectors. At the prompt
the user types one line at a time:

- `name = x y z` (commas allowed) files a literal vector under `name`;
- `A + B`, `A - B`, `A * k` and `k * A` compute a result and show it as `ans`;
- `R = <operation>` computes the same result and files it under `R`;
- `name` shows a stored vector;
- `list` shows all stored vectors, `clear` empties the store and `quit` ends the session.

Vectors live in a fixed table of ten slots, each with a name of at most 15
characters, three components and an `in_use` flag.

This project models two parts of that program:

- The store of `store.c`, with the record layout of `vect.h`. It is the
  class `Store.Store`, an array of ten slots changed in place. Each method
  is proved equal to a function over the sequence of slots:
  `FindIndex`, `FirstFree`, `Insert`, `Put`, `Lookup` and `Listing`.
- The body of the read loop in `main.c` (lines 172-349) and its parsing
  helpers `trim`, `is_number`, `parse_three`, `parse_assign` and
  `parse_op` (module `Parse`).
  - Each helper that loops is a method proved equal to a string function:
    `Trimmed`, `SplitAssign`, `SplitOp` and `Components`.
  - The loop body is the method `Repl.Step`. It calls those helpers and
    the store's methods, and is proved equal to the function `Repl.Execute`.
  - `Repl.Execute` says what the program answers (a `Response`) and what
    the table becomes.
  - `Repl.Session` runs the whole loop from `store_init` over a list of
    input lines. It is proved equal to `Repl.Replay`.

The component type is a type parameter `N`. The double `0.0`, the three
arithmetic operators and `strtod` are passed in as a `Vectors.Lib<N>` record.

Files:

- `wrappers.dfy`: `Option` and `Result`.
- `vectors.dfy`: `vect`, `MAX_VECTS`, `VNAME_LEN` and the operations of `ops.c`.
- `store.dfy`: `store.c`.
- `parse.dfy`: the helpers of `main.c`.
- `repl.dfy`: the loop of `main.c`.

Points where the code does more, or less, than its help text (main.c:17-30)
suggests:

- The help text shows an assignment of three components (main.c:22).
  `parse_three` stops after reading its third token, and any text after
  that token is never examined: `v = 1 2 3 foo` stores `(1, 2, 3)`
  (`Parse.ExtraTokensIgnored`, `Parse.ComponentsIgnoreTail`).
- `parse_op` does not require a single operator pattern. The first
  pattern found in the order `+`, `-`, `*` decides the split
  (`Parse.PlusBeforeTimes`).
- The results of `v_add`, `v_sub` and `v_scale` are copies of the first
  operand, so they keep its name and its `in_use` flag
  (`Vectors.ResultsCopyFirstOperand`). The name is overwritten before
  anything is stored, so this cannot be seen.

## Model

| member | source | states |
|---|---|---|
| Vectors.ResultsCopyFirstOperand | ops.c:10-40 | the sum, the difference and the scaled vector keep the first operand's name and `in_use` flag |
| Store.FindIndex | store.c:42-53 | the lowest index of a slot in use whose name equals `name`; -1 exactly when no slot in use holds that name |
| Store.FirstFree | store.c:29-39 | the lowest index of a slot not in use; -1 exactly when every slot is in use |
| Store.Truncate | store.c:90-91 | the stored name is the first 15 characters of the argument, or the whole argument when it is shorter |
| Store.EmptyTableIsClear | store.c:16-26 | after initialisation every slot is free, with an empty name and zero components; the table invariant holds, nothing is listed and no name is found |
| Store.FindIsTheSlot | store.c:42-53 | with unique names, the search returns the one slot in use under the name |
| Store.InsertPlacement | store.c:56-73 | a name in use is overwritten in its own slot, even in a full table; a new name goes to the lowest free slot; the result is -1 exactly when the name is new and no slot is free, and then nothing changes; on success the written slot holds the value marked in use and no other slot changes |
| Store.InsertPreservesWf | store.c:56-73 | insert-or-replace keeps the table invariant: unique names among slots in use, and free slots as initialised |
| Store.InsertThenFind | store.c:42-73 | after a successful insert the name is found in the slot written, holding the value marked in use; every other name is found where it was before |
| Store.SetUsesOnlyComponents | store.c:88-94 | `store_set` depends only on the components of the value passed; its name and flag are replaced |
| Store.SetThenLookup | store.c:76-94 | round trip: for a name of at most 15 characters, a successful set followed by a get of that name returns the components under that name, marked in use; other names give what they gave before |
| Store.LongNameFiledUnderPrefix | store.c:88-94 | a name longer than 15 characters is filed under its 15-character prefix, and a get with the full name finds nothing |
| Store.SetFailsOnlyWhenFull | store.c:88-94 | `store_set` fails exactly when every slot is in use under another name than the truncated one, and then the table is unchanged |
| Store.ListingIsInUseSlots | store.c:103-120 | the listing has one entry per slot in use, in increasing slot order; every slot in use appears; it is empty exactly when no slot is in use |
| Store.OccupiedCount | store.c:105-115 | the number of indices visited from a slot on equals the number of slots in use from there |
| Store.Store.constructor | store.c:12 | the static table starts out like the table `store_init` leaves, with a fresh array |
| Store.Store.Init | store.c:16-26 | every slot becomes free, with an empty name and zero components, and the invariant holds |
| Store.Store.Clear | store.c:97-100 | the same effect as initialisation |
| Store.Store.FirstEmpty | store.c:29-39 | the loop returns `FirstFree` of the slots |
| Store.Store.Find | store.c:42-53 | the loop returns `FindIndex` of the slots |
| Store.Store.AddOrReplace | store.c:56-73 | the returned index and the new slots are those of `Insert`, and the invariant is kept |
| Store.Store.Get | store.c:76-85 | returns true exactly when the name is in use, and then a copy of its slot; otherwise the caller's prior value, untouched |
| Store.Store.Set | store.c:88-94 | success and new slots are those of `Put`: insert-or-replace under the truncated name |
| Store.Store.List | store.c:103-120 | returns the slots in use in slot order and their count; the count is zero exactly when no slot is in use |
| Parse.SkipSpacesSpec | main.c:35-38 | the first loop of `trim` passes only whitespace and stops at a non-space or at the end |
| Parse.BackSpacesSpec | main.c:43-47 | the second loop of `trim` passes only whitespace and stops after a non-space or at the first kept character |
| Parse.TrimmedSpec | main.c:33-49 | `trim` returns the stretch of the input between its leading and trailing whitespace; what it drops is whitespace; its result neither starts nor ends with whitespace; it is empty exactly when the input is all whitespace |
| Parse.TrimmedEmptyIff | main.c:39-42 | `trim` gives the empty string exactly on all-whitespace input |
| Parse.TrimmedIsTrimmed | main.c:33-49 | trimming is idempotent |
| Parse.Trim | main.c:33-49 | the two scanning loops compute `Trimmed` |
| Parse.IndexOf | main.c:102 | `strstr`: a position where the pattern occurs with no earlier occurrence, or -1 when it occurs nowhere |
| Parse.IsNumberIff | main.c:52-65 | `is_number` accepts exactly when `strtod` consumes a prefix and the rest is whitespace |
| Parse.Tokens | main.c:84-93 | every token `strtok` returns on space and tab is non-empty and holds no delimiter |
| Parse.TokensOfLayout | main.c:84-93 | words laid out with runs of spaces and tabs around them, at least one between any two, tokenize to exactly those words, in order |
| Parse.LayoutOfTokens | main.c:84-93 | every string is such a layout of its own tokens: the tokens are the maximal delimiter-free runs, all of them, in order, and only delimiters are lost |
| Parse.ParseThree | main.c:68-96 | the comma loop and the token loop compute `Components`: the first three tokens' values when there are at least three and those are numbers |
| Parse.ComponentsIgnoreCommas | main.c:75-81 | two right-hand sides that are equal once their commas are spaces give the same triple |
| Parse.CommaFormsAgree | main.c:70-95 | `x y z`, `x, y, z` and `x,y,z` give the same result for any three comma-free words |
| Parse.ComponentsIgnoreTail | main.c:83-95 | two right-hand sides whose first three tokens agree give the same triple |
| Parse.ExtraTokensIgnored | main.c:83-95 | three words followed by anything give the same result as the three words alone, and succeed exactly when all three are numbers |
| Parse.ParseAssign | main.c:99-111 | computes `SplitAssign`: the split at the first `" = "`, with both trimmed sides non-empty |
| Parse.SplitAssignParts | main.c:99-111 | both sides returned are non-empty and already trimmed, and the left side holds no `" = "` |
| Parse.SplitAssignOnTrimmed | main.c:99-111 | on a trimmed non-empty line, `parse_assign` succeeds exactly when `" = "` occurs |
| Parse.ParseOp | main.c:114-138 | the loop over `"+-*"` computes `SplitOp` |
| Parse.SplitOpFirstMatch | main.c:117-137 | on success the operator is `+`, `-` or `*`, its pattern occurs, no earlier operator's pattern occurs, and the split is at that pattern's first occurrence |
| Parse.SplitOpOperator | main.c:117-134 | the operator returned is one of `"+-*"` |
| Parse.SplitOpOnTrimmed | main.c:126-135 | on a trimmed non-empty line, `parse_op` succeeds exactly when one of the three patterns occurs |
| Parse.PlusBeforeTimes | main.c:117-136 | `"a * b + c"` splits at `" + "` into `"a * b"` and `"c"` |
| Repl.Compute | main.c:231-278 | the operand checks and arithmetic of the loop compute `Evaluate` |
| Repl.DisplayName | main.c:141-150 | shows the stored vector under its name, or reports that it does not exist |
| Repl.Assign | main.c:196-290 | the assignment branch computes `ExecuteAssign` and keeps the store invariant |
| Repl.Step | main.c:172-349 | one turn of the loop gives the response and new table of `Execute`, and keeps the store invariant |
| Repl.Session | main.c:161-350 | from `store_init`, the loop's responses are `Replay` of the input lines |
| Repl.AssignmentIsNoCommand | main.c:179-200 | a line `parse_assign` accepts is not blank and no command, so it takes the assignment branch |
| Repl.OperationIsNoCommand | main.c:179-192 | a line `parse_op` accepts is not blank and no command |
| Repl.BlankLineIgnored | main.c:172-176 | a line is ignored exactly when it is all whitespace, and then the table is unchanged |
| Repl.IgnoredOnlyWhenEmpty | main.c:172-349 | the trimmed line gets no answer exactly when it is empty |
| Repl.ClearThenList | main.c:183-192 | after `clear` no name is found and `list` lists nothing |
| Repl.ListShowsSlotsInUse | main.c:188-192 | `list` changes nothing and lists exactly the slots in use, one entry each, in increasing slot order (the entries are `Listing` of the table) |
| Repl.AssignFailureUnchanged | main.c:199-289 | every failing assignment leaves the table unchanged; "Memory full" only when all slots are in use under other names |
| Repl.OnlyAssignmentBranchWrites | main.c:293-349 | a line that is no assignment leaves the table unchanged, except `clear`, which empties it |
| Repl.FailureLeavesTableUnchanged | main.c:172-349 | any line that fails leaves the table unchanged; "Memory full" only from an assignment when every slot is in use under another name |
| Repl.OnlyClearAndAssignmentWrite | main.c:172-349 | a turn that changes the table is `clear` or an assignment that was shown |
| Repl.AssignShowsOrFails | main.c:199-289 | an assignment is either shown or fails |
| Repl.AssignEffect | main.c:199-289 | a shown assignment is captioned with the name typed; the table becomes one `store_set` of the shown components; the truncated name then finds them; for a name that fits, every other name is unaffected |
| Repl.AssignIsOnePut | main.c:199-289 | what a shown assignment stores is a `store_set` of exactly the components shown |
| Repl.PutEffect | store.c:88-94 | a successful `store_set` files the components under the truncated name; for a name that fits, every other name keeps its lookup |
| Repl.AssignThenShow | main.c:196-349 | round trip at the prompt: after `name = ...` is shown, typing `name` shows the same vector and leaves the table alone, for a name of at most 15 characters that is no command and holds no operator pattern |
| Repl.BareOperationNotStored | main.c:297-347 | an operation without an assignment never changes the table; when shown, it is shown as `ans` with the evaluated components |
| Repl.BareNameDisplayed | main.c:297-349 | any other line is a name lookup: the table is unchanged; "does not exist" exactly when no slot in use holds the name; otherwise that slot's components |
| Repl.NeverUnsupported | main.c:274-278 | "Unsupported operator" is never the answer to any line |
| Repl.OperatorSupported | main.c:235-278 | every operator `parse_op` can return is handled |
| Repl.ScaleEitherOrder | main.c:246-273 | `k * A` and `A * k` give the same result or the same error |
| Repl.ScaleNeedsOneScalar | main.c:246-273 | scaling reports "One side must be a scalar" exactly when both sides or neither are numbers; it succeeds exactly when one side is a number and the other a stored name |
| Repl.AddSubNeedBoth | main.c:235-245 | `+` and `-` succeed exactly when both names are stored, otherwise "Operands must be existing vectors"; the result keeps the first operand's name and flag |
| Repl.EvaluateReadsOnlyOperands | main.c:231-278 | an operation's outcome depends on the table only through its two operands' lookups |
| Repl.PutKeepsConsistent | store.c:88-94 | `store_set` with a non-empty name keeps the table invariant, with no in-use slot left unnamed |
| Repl.DispatchKeepsConsistent | main.c:172-349 | every turn keeps the table invariant, with no in-use slot left unnamed |
| Repl.AssignKeepsConsistent | main.c:196-290 | the assignment branch keeps the table invariant, with no in-use slot left unnamed |
| Repl.ReplayStopsAtQuit | main.c:163-182 | a session gives exactly one response per line up to and including the first `quit`: fewer responses than lines only when the last is `quit`, and no earlier response is `quit` |
| Repl.ReplayResponses | main.c:163-350 | the `k`-th response is the answer to line `k` on the table the first `k` lines left |
| Repl.SessionKeepsConsistent | main.c:163-350 | over any sequence of lines the table stays consistent |
| Repl.InitialTableConsistent | store.c:16-26 | the table `store_init` leaves is consistent |

## Left out

- Console I/O is reduced to data. That covers `fgets`, the prompt, `help()`
  and the `-h` argument (main.c:17-30, main.c:152-170). The input is a
  sequence of lines, and end of input ends the session.
- What is printed is reduced to a `Response`. That covers `print_vect`,
  the `printf("%.3f ...")` of `store_list` and the "(no vectors stored)"
  line. Some error messages miss their newline; that is an output detail too.
- Floating-point arithmetic is left to the caller. `+`, `-`, `*` and the
  value `0.0` are parameters of `Vectors.Lib`.
- The grammar of `strtod` is a parameter. It reports how many characters
  it consumed and the value. A report of more characters than the token
  has makes `is_number` reject the token. A report of zero characters is
  what `strtod` gives when nothing converts, and `is_number` then accepts
  exactly the all-whitespace tokens, as the program does.
- `LINE_MAX` is not modelled: a line is not cut at 255 characters, and
  `fgets` does not split longer lines. The `strncpy` into `parse_three`'s
  buffer is modelled as a plain copy.
- `strtok`'s hidden static state is not modelled. Its successive results
  are the function `Parse.Tokens`, characterised by `Parse.TokensOfLayout`
  and `Parse.LayoutOfTokens`.
- The terminators that `trim`, `parse_assign` and `parse_op` write into
  the line are not modelled as writes. Each helper returns slices instead.
  - `Parse.SplitAssignOnTrimmed` and `Parse.SplitOpOnTrimmed` show that on
    the trimmed lines the loop passes along, a helper that cuts the line
    also succeeds.
  - So no later step sees the cut line. Aliasing between the pieces and
    the line buffer is therefore not modelled.
- `Repl.Compute` starts the uninitialised stack variables as fixed values:
  `A` is the empty slot and `num` is zero. Neither value can reach a
  result: `A` is read only after a successful get, and `num` only after a
  successful `is_number`.
- Characters are C bytes. A Dafny `char` stands for one byte of the
  line, so `Store.Truncate` cuts a name at 15 of them as `strncpy` does;
  a name in a multi-byte encoding is not modelled.
- No line holds a NUL byte. The program's string functions (`trim`,
  `strcmp`, `strstr`, `strtok`) all stop at the first one, and the model
  treats every character of the line alike.
