/** The body of main.c's read loop: classify one input line and apply it to
    the store.

    `Execute` states, as a function of the table and the line, what the
    program answers and what the table becomes; the method `Step` does it
    the way `main` does, by calling the parsing helpers and the store's
    mutators, and is proved to agree with `Execute`. What is printed is
    reduced to a `Response`; the number formatting is not modelled. */
module Repl {
  import opened Wrappers
  import opened Vectors
  import opened Store
  import opened Parse

  /** The error messages of the loop. */
  datatype Error =
    | MemoryFull                 // "Memory full. Use 'clear' to reset."
    | InvalidAssignment          // "Invalid assignment expression."
    | OperandsNotVectors         // "Operands must be existing vectors."
    | VectorOperandNotFound      // "Vector operand not found."
    | ScalarAndVector            // "One side must be a scalar, the other a vector."
    | UnsupportedOperator        // "Unsupported operator."
    | DoesNotExist(name: string) // "Vector '<name>' does not exist."

  /** What one line makes the program do on its output. */
  datatype Response<N> =
    | Ignored                             // blank line
    | Quit                                // `quit`: leave the loop
    | Cleared                             // `clear`: no output
    | Listed(entries: seq<Vect<N>>)       // `list`; no entries prints "(no vectors stored)"
    | Shown(caption: string, v: Triple<N>)  // `print_vect(caption, ...)`
    | Failed(error: Error)

  // ---------------------------------------------------------------------
  // Specification

  /** The operand checks and the arithmetic of an operation `a op b`, the
      same on the assignment path and on the bare path. */
  function Evaluate<N>(lib: Lib<N>, s: seq<Vect<N>>, o: Operation): Result<Vect<N>, Error>
  {
    if o.op == '+' || o.op == '-' then
      match (Lookup(s, o.a), Lookup(s, o.b))
      case (Some(a), Some(b)) => Success(if o.op == '+' then Add(lib, a, b) else Sub(lib, a, b))
      case _ => Failure(OperandsNotVectors)
    else if o.op == '*' then
      var aIsNum := IsNumber(lib.strtod, o.a);
      var bIsNum := IsNumber(lib.strtod, o.b);
      if aIsNum && !bIsNum then
        match Lookup(s, o.b)
        case Some(v) => Success(Scale(lib, v, NumberValue(lib.strtod, o.a)))
        case None => Failure(VectorOperandNotFound)
      else if !aIsNum && bIsNum then
        match Lookup(s, o.a)
        case Some(v) => Success(Scale(lib, v, NumberValue(lib.strtod, o.b)))
        case None => Failure(VectorOperandNotFound)
      else Failure(ScalarAndVector)
    else Failure(UnsupportedOperator)
  }

  /** `do_display_name`. */
  function Display<N>(s: seq<Vect<N>>, name: string): Response<N>
  {
    match Lookup(s, name)
    case Some(v) => Shown(v.name, v.v)
    case None => Failed(DoesNotExist(name))
  }

  /** `name = ...`: a literal triple first, then an operation; the result is
      saved with `store_set(LEFT, ...)` and shown under LEFT. */
  function ExecuteAssign<N>(lib: Lib<N>, s: seq<Vect<N>>, asg: Assignment): (Response<N>, seq<Vect<N>>)
  {
    match Components(lib.strtod, asg.right)
    case Some(c) =>
      var (ok, s') := Put(s, asg.left, Vect(Truncate(asg.left), c, false));
      (if ok then Shown(asg.left, c) else Failed(MemoryFull), s')
    case None =>
      match SplitOp(asg.right)
      case None => (Failed(InvalidAssignment), s)
      case Some(o) =>
        match Evaluate(lib, s, o)
        case Failure(e) => (Failed(e), s)
        case Success(r) =>
          var (ok, s') := Put(s, asg.left, r.(name := Truncate(asg.left)));
          (if ok then Shown(asg.left, r.v) else Failed(MemoryFull), s')
  }

  /** A line without `" = "`: an operation shown as `ans`, or a name. */
  function ExecuteBare<N>(lib: Lib<N>, s: seq<Vect<N>>, t: string): (Response<N>, seq<Vect<N>>)
  {
    match SplitOp(t)
    case Some(o) =>
      (match Evaluate(lib, s, o)
       case Failure(e) => Failed(e)
       case Success(r) => Shown("ans", r.v), s)
    case None => (Display(s, t), s)
  }

  /** One turn of the loop on the trimmed line `t`: the response and the
      new table. */
  function Dispatch<N>(lib: Lib<N>, s: seq<Vect<N>>, t: string): (Response<N>, seq<Vect<N>>)
  {
    if t == [] then (Ignored, s)
    else if t == "quit" then (Quit, s)
    else if t == "clear" then (Cleared, EmptyTable(lib.zero))
    else if t == "list" then (Listed(Listing(s)), s)
    else
      match SplitAssign(t)
      case Some(asg) => ExecuteAssign(lib, s, asg)
      case None => ExecuteBare(lib, s, t)
  }

  /** One turn of the loop on the line read: `trim` it, then dispatch. */
  function Execute<N>(lib: Lib<N>, s: seq<Vect<N>>, line: string): (Response<N>, seq<Vect<N>>)
  {
    Dispatch(lib, s, Trimmed(line))
  }

  /** The responses to a sequence of input lines, up to and including the
      first `quit` (end of input ends the loop the same way). */
  function Replay<N>(lib: Lib<N>, s: seq<Vect<N>>, lines: seq<string>): seq<Response<N>>
    decreases |lines|
  {
    if lines == [] then []
    else
      var (r, s') := Execute(lib, s, lines[0]);
      if r.Quit? then [r] else [r] + Replay(lib, s', lines[1..])
  }

  /** One line of a replay from position `i`. */
  lemma ReplayStep<N>(lib: Lib<N>, s: seq<Vect<N>>, lines: seq<string>, i: nat)
    requires i < |lines|
    ensures var (r, s') := Execute(lib, s, lines[i]);
      Replay(lib, s, lines[i..]) == [r] + (if r.Quit? then [] else Replay(lib, s', lines[i + 1..]))
  {
    assert lines[i..][0] == lines[i] && lines[i..][1..] == lines[i + 1..];
  }

  // ---------------------------------------------------------------------
  // The loop as the program runs it

  /** The operand branches of the loop body for `a op b`. `A` and the
      scalar `num` start out with whatever the stack holds (here: the empty
      slot and zero); `is_number` writes `num` only when it succeeds, so
      after both checks `num` holds the numeric side's value. */
  method Compute<N>(lib: Lib<N>, store: Store<N>, o: Operation) returns (r: Result<Vect<N>, Error>)
    requires store.Valid()
    ensures r == Evaluate(lib, store.slots[..], o)
  {
    var unset := Empty(lib.zero);
    if o.op == '+' || o.op == '-' {
      var foundA, a := store.Get(o.a, unset);
      if !foundA {
        return Failure(OperandsNotVectors);
      }
      var foundB, b := store.Get(o.b, unset);
      if !foundB {
        return Failure(OperandsNotVectors);
      }
      return Success(if o.op == '+' then Add(lib, a, b) else Sub(lib, a, b));
    } else if o.op == '*' {
      var num := lib.zero;
      var aIsNum := IsNumber(lib.strtod, o.a);
      if aIsNum {
        num := NumberValue(lib.strtod, o.a);
      }
      var bIsNum := IsNumber(lib.strtod, o.b);
      if bIsNum {
        num := NumberValue(lib.strtod, o.b);
      }
      if aIsNum && !bIsNum {
        var found, v := store.Get(o.b, unset);
        if !found {
          return Failure(VectorOperandNotFound);
        }
        return Success(Scale(lib, v, num));
      } else if !aIsNum && bIsNum {
        var found, v := store.Get(o.a, unset);
        if !found {
          return Failure(VectorOperandNotFound);
        }
        return Success(Scale(lib, v, num));
      } else {
        return Failure(ScalarAndVector);
      }
    } else {
      return Failure(UnsupportedOperator);
    }
  }

  /** `do_display_name`. */
  method DisplayName<N>(store: Store<N>, name: string) returns (resp: Response<N>)
    requires store.Valid()
    ensures resp == Display(store.slots[..], name)
  {
    var found, v := store.Get(name, Empty(store.zero));
    if !found {
      return Failed(DoesNotExist(name));
    }
    return Shown(v.name, v.v);
  }

  /** The assignment branch of the loop body. */
  method Assign<N>(lib: Lib<N>, store: Store<N>, asg: Assignment) returns (resp: Response<N>)
    requires store.Valid()
    modifies store.slots
    ensures store.Valid()
    ensures (resp, store.slots[..]) == ExecuteAssign(lib, old(store.slots[..]), asg)
  {
    var triple := ParseThree(lib.strtod, asg.right);
    if triple.Some? {
      var v := Vect(Truncate(asg.left), triple.value, false);
      var ok := store.Set(asg.left, v);
      return if ok then Shown(asg.left, v.v) else Failed(MemoryFull);
    }
    var operation := ParseOp(asg.right);
    if operation.None? {
      return Failed(InvalidAssignment);
    }
    var result := Compute(lib, store, operation.value);
    if result.Failure? {
      return Failed(result.error);
    }
    var r := result.value.(name := Truncate(asg.left));
    var ok := store.Set(asg.left, r);
    return if ok then Shown(asg.left, r.v) else Failed(MemoryFull);
  }

  /** One turn of the loop on a line read from the input. */
  method Step<N>(lib: Lib<N>, store: Store<N>, line: string) returns (resp: Response<N>)
    requires store.Valid() && store.zero == lib.zero
    modifies store.slots
    ensures store.Valid()
    ensures (resp, store.slots[..]) == Execute(lib, old(store.slots[..]), line)
  {
    var t := Trim(line);
    if t == [] {
      return Ignored;
    }
    if t == "quit" {
      return Quit;
    }
    if t == "clear" {
      store.Clear();
      return Cleared;
    }
    if t == "list" {
      var entries, count := store.List();
      return Listed(entries);
    }
    var assignment := ParseAssign(t);
    if assignment.Some? {
      resp := Assign(lib, store, assignment.value);
      return;
    }
    var operation := ParseOp(t);
    if operation.Some? {
      var result := Compute(lib, store, operation.value);
      return if result.Success? then Shown("ans", result.value.v) else Failed(result.error);
    }
    resp := DisplayName(store, t);
  }

  /** `main` without `-h`: initialise the store, then run the loop over the
      input lines until `quit` or the end of the input. */
  method Session<N>(lib: Lib<N>, lines: seq<string>) returns (responses: seq<Response<N>>)
    ensures responses == Replay(lib, EmptyTable(lib.zero), lines)
  {
    var store := new Store(lib.zero);
    store.Init();
    responses := [];
    var i := 0;
    while i < |lines|
      invariant 0 <= i <= |lines|
      invariant fresh(store.slots) && store.Valid() && store.zero == lib.zero
      invariant responses + Replay(lib, store.slots[..], lines[i..]) == Replay(lib, EmptyTable(lib.zero), lines)
    {
      ghost var before := store.slots[..];
      var r := Step(lib, store, lines[i]);
      ghost var after := store.slots[..];
      ReplayStep(lib, before, lines, i);
      assert Replay(lib, before, lines[i..]) == [r] + (if r.Quit? then [] else Replay(lib, after, lines[i + 1..]));
      if r.Quit? {
        responses := responses + [r];
        return;
      }
      ghost var rest := Replay(lib, after, lines[i + 1..]);
      assert responses + [r] + rest == responses + ([r] + rest);
      responses := responses + [r];
      i := i + 1;
    }
    assert lines[i..] == [];
  }

  // ---------------------------------------------------------------------
  // Properties of one turn

  /** The commands contain no space, so a line holding a space is none of them. */
  lemma SpaceIsNoCommand(t: string, i: int)
    requires 0 <= i < |t| && t[i] == ' '
    ensures t != [] && t != "quit" && t != "clear" && t != "list"
  {
  }

  /** A line `parse_assign` accepts is none of the commands, so it takes
      the assignment branch. */
  lemma AssignmentIsNoCommand<N>(lib: Lib<N>, s: seq<Vect<N>>, t: string)
    requires SplitAssign(t).Some?
    ensures t != [] && t != "quit" && t != "clear" && t != "list"
    ensures Dispatch(lib, s, t) == ExecuteAssign(lib, s, SplitAssign(t).value)
  {
    FoundStartsWith(t, ASSIGN);
    SpaceIsNoCommand(t, IndexOf(t, ASSIGN));
  }

  /** A line `parse_op` accepts is none of the commands. */
  lemma OperationIsNoCommand(t: string)
    requires SplitOp(t).Some?
    ensures t != [] && t != "quit" && t != "clear" && t != "list"
  {
    var op := SplitOp(t).value.op;
    SplitOpFirstMatch(t);
    FoundStartsWith(t, Pattern(op));
    SpaceIsNoCommand(t, IndexOf(t, Pattern(op)));
  }

  /** Exactly the blank lines are ignored without a word, and they change
      nothing. */
  lemma BlankLineIgnored<N>(lib: Lib<N>, s: seq<Vect<N>>, line: string)
    ensures Execute(lib, s, line).0 == Ignored <==> AllSpace(line)
    ensures AllSpace(line) ==> Execute(lib, s, line).1 == s
  {
    TrimmedEmptyIff(line);
    IgnoredOnlyWhenEmpty(lib, s, Trimmed(line));
  }

  /** Every non-empty line gets an answer other than silence. */
  lemma IgnoredOnlyWhenEmpty<N>(lib: Lib<N>, s: seq<Vect<N>>, t: string)
    ensures Dispatch(lib, s, t).0 == Ignored <==> t == []
  {
    if SplitAssign(t).Some? {
      AssignmentIsNoCommand(lib, s, t);
      assert !ExecuteAssign(lib, s, SplitAssign(t).value).0.Ignored?;
    }
  }

  /** After `clear` no name is found and `list` shows nothing. */
  lemma ClearThenList<N>(lib: Lib<N>, s: seq<Vect<N>>)
    ensures var (resp, s') := Dispatch(lib, s, "clear");
      && resp == Cleared
      && Dispatch(lib, s', "list") == (Listed([]), s')
      && forall name :: Lookup(s', name) == None
  {
    EmptyTableIsClear(lib.zero);
  }

  /** `list` shows exactly the slots in use, in slot order (the `k`-th
      entry is the slot at the `k`-th index of `OccupiedFrom`, which
      increase), and changes nothing. */
  lemma ListShowsSlotsInUse<N>(lib: Lib<N>, s: seq<Vect<N>>)
    ensures var (resp, s') := Dispatch(lib, s, "list");
      && s' == s
      && resp.Listed?
      && resp.entries == Listing(s)
      && |resp.entries| == InUseCount(s)
      && (forall k :: 0 <= k < |resp.entries| ==> resp.entries[k] == s[OccupiedFrom(s, 0)[k]])
      && (forall i :: 0 <= i < |s| && s[i].inUse ==> s[i] in resp.entries)
      && (forall e :: e in resp.entries ==> e.inUse)
  {
    ListingIsInUseSlots(s);
  }

  /** The assignment branch fails without writing anything; "Memory full"
      comes only when all ten slots are in use under other names. */
  lemma AssignFailureUnchanged<N>(lib: Lib<N>, s: seq<Vect<N>>, asg: Assignment)
    ensures ExecuteAssign(lib, s, asg).0.Failed? ==> ExecuteAssign(lib, s, asg).1 == s
    ensures ExecuteAssign(lib, s, asg).0 == Failed(MemoryFull) ==>
      forall j :: 0 <= j < |s| ==> s[j].inUse && s[j].name != Truncate(asg.left)
  {
    match Components(lib.strtod, asg.right)
    case Some(c) =>
      SetFailsOnlyWhenFull(s, asg.left, Vect(Truncate(asg.left), c, false));
    case None =>
      match SplitOp(asg.right)
      case None =>
      case Some(o) =>
        match Evaluate(lib, s, o)
        case Failure(_) =>
        case Success(r) =>
          SetFailsOnlyWhenFull(s, asg.left, r.(name := Truncate(asg.left)));
  }

  /** The branches other than assignment never write, except `clear`. */
  lemma OnlyAssignmentBranchWrites<N>(lib: Lib<N>, s: seq<Vect<N>>, t: string)
    requires SplitAssign(t).None?
    ensures Dispatch(lib, s, t).1 == s || (t == "clear" && Dispatch(lib, s, t) == (Cleared, EmptyTable(lib.zero)))
  {
  }

  /** A line that fails leaves the table as it was; "Memory full" comes only
      from an assignment to a new name when all ten slots are in use. */
  lemma FailureLeavesTableUnchanged<N>(lib: Lib<N>, s: seq<Vect<N>>, t: string)
    ensures Dispatch(lib, s, t).0.Failed? ==> Dispatch(lib, s, t).1 == s
    ensures Dispatch(lib, s, t).0 == Failed(MemoryFull) ==>
      && SplitAssign(t).Some?
      && forall j :: 0 <= j < |s| ==> s[j].inUse && s[j].name != Truncate(SplitAssign(t).value.left)
  {
    if SplitAssign(t).Some? {
      AssignmentIsNoCommand(lib, s, t);
      AssignFailureUnchanged(lib, s, SplitAssign(t).value);
    } else {
      OnlyAssignmentBranchWrites(lib, s, t);
    }
  }

  /** Only `clear` and a successful assignment change the table: bare
      expressions, lookups, `list` and every error only read it. */
  lemma OnlyClearAndAssignmentWrite<N>(lib: Lib<N>, s: seq<Vect<N>>, t: string)
    requires Dispatch(lib, s, t).1 != s
    ensures t == "clear" || (SplitAssign(t).Some? && Dispatch(lib, s, t).0.Shown?)
  {
    if SplitAssign(t).Some? {
      AssignmentIsNoCommand(lib, s, t);
      AssignFailureUnchanged(lib, s, SplitAssign(t).value);
      AssignShowsOrFails(lib, s, SplitAssign(t).value);
    } else {
      OnlyAssignmentBranchWrites(lib, s, t);
    }
  }

  /** The assignment branch either shows its result or fails. */
  lemma AssignShowsOrFails<N>(lib: Lib<N>, s: seq<Vect<N>>, asg: Assignment)
    ensures ExecuteAssign(lib, s, asg).0.Shown? || ExecuteAssign(lib, s, asg).0.Failed?
  {
  }

  /** The effect of a successful assignment `name = ...`: it is shown under
      `name` as typed, its components are stored exactly as
      `store_set(name, ...)` stores them, under the name cut to 15
      characters, and for a name that fits every other name finds what it
      found before. */
  lemma AssignEffect<N>(lib: Lib<N>, s: seq<Vect<N>>, asg: Assignment)
    requires ExecuteAssign(lib, s, asg).0.Shown?
    ensures var (resp, s') := ExecuteAssign(lib, s, asg);
      && resp.caption == asg.left
      && s' == Put(s, asg.left, Vect(Truncate(asg.left), resp.v, false)).1
      && Lookup(s', Truncate(asg.left)) == Some(Vect(Truncate(asg.left), resp.v, true))
      && (|asg.left| < VNAME_LEN ==> forall other :: other != asg.left ==> Lookup(s', other) == Lookup(s, other))
  {
    var (resp, s') := ExecuteAssign(lib, s, asg);
    AssignIsOnePut(lib, s, asg);
    PutEffect(s, asg.left, resp.v);
  }

  /** What the assignment branch shows is what it hands to `store_set`. */
  lemma AssignIsOnePut<N>(lib: Lib<N>, s: seq<Vect<N>>, asg: Assignment)
    requires ExecuteAssign(lib, s, asg).0.Shown?
    ensures var (resp, s') := ExecuteAssign(lib, s, asg);
      && resp.caption == asg.left
      && Put(s, asg.left, Vect(Truncate(asg.left), resp.v, false)) == (true, s')
  {
    var (resp, s') := ExecuteAssign(lib, s, asg);
    if Components(lib.strtod, asg.right).None? {
      var r := Evaluate(lib, s, SplitOp(asg.right).value).value;
      SetUsesOnlyComponents(s, asg.left, r.(name := Truncate(asg.left)), Vect(Truncate(asg.left), resp.v, false));
    }
  }

  /** A successful `store_set(name, v)` files `v` under the truncated name
      and, for a name that fits, leaves every other name as it was. */
  lemma PutEffect<N>(s: seq<Vect<N>>, name: string, v: Triple<N>)
    requires Put(s, name, Vect(Truncate(name), v, false)).0
    ensures var s' := Put(s, name, Vect(Truncate(name), v, false)).1;
      && Lookup(s', Truncate(name)) == Some(Vect(Truncate(name), v, true))
      && (|name| < VNAME_LEN ==> forall other :: other != name ==> Lookup(s', other) == Lookup(s, other))
  {
    var stored := Vect(Truncate(name), v, false);
    if |name| < VNAME_LEN {
      SetThenLookup(s, name, stored, name);
      forall other | other != name ensures Lookup(Put(s, name, stored).1, other) == Lookup(s, other) {
        SetThenLookup(s, name, stored, other);
      }
    } else {
      LongNameFiledUnderPrefix(s, name, stored);
    }
  }

  /** Round trip at the prompt: once `name = ...` has been shown, typing
      `name` shows the same components under the same caption, provided the
      name fits in 15 characters, is not a command and holds no operator
      pattern (otherwise it would be read as a command or an operation). */
  lemma AssignThenShow<N>(lib: Lib<N>, s: seq<Vect<N>>, t: string)
    requires SplitAssign(t).Some?
    requires var left := SplitAssign(t).value.left;
      |left| < VNAME_LEN && left != "quit" && left != "clear" && left != "list" && SplitOp(left) == None
    requires Dispatch(lib, s, t).0.Shown?
    ensures var (resp, s') := Dispatch(lib, s, t);
      Execute(lib, s', resp.caption) == (resp, s')
  {
    var asg := SplitAssign(t).value;
    AssignmentIsNoCommand(lib, s, t);
    AssignEffect(lib, s, asg);
    SplitAssignParts(t);
    var (resp, s') := Dispatch(lib, s, t);
    assert Execute(lib, s', asg.left) == Dispatch(lib, s', asg.left);
  }

  /** An operation without `" = "` in front is shown as `ans` and never
      stored. */
  lemma BareOperationNotStored<N>(lib: Lib<N>, s: seq<Vect<N>>, t: string)
    requires SplitAssign(t) == None && SplitOp(t).Some?
    ensures Dispatch(lib, s, t).1 == s
    ensures Dispatch(lib, s, t).0.Shown? ==>
      Dispatch(lib, s, t).0.caption == "ans" &&
      Dispatch(lib, s, t).0.v == Evaluate(lib, s, SplitOp(t).value).value.v
  {
    OperationIsNoCommand(t);
  }

  /** A line that is neither a command, nor an assignment, nor an operation
      is a name: it shows the vector stored under it, or says it does not
      exist. */
  lemma BareNameDisplayed<N>(lib: Lib<N>, s: seq<Vect<N>>, t: string)
    requires t != [] && t != "quit" && t != "clear" && t != "list" && SplitAssign(t) == None && SplitOp(t) == None
    ensures Dispatch(lib, s, t).1 == s
    ensures Dispatch(lib, s, t).0 == Failed(DoesNotExist(t)) <==> forall j :: 0 <= j < |s| ==> !Holds(s[j], t)
    ensures Dispatch(lib, s, t).0.Shown? ==>
      exists j :: 0 <= j < |s| && Holds(s[j], t) && Dispatch(lib, s, t).0 == Shown(t, s[j].v)
  {
    var i := FindIndex(s, t);
    if i >= 0 {
      assert Holds(s[i], t);
    }
  }

  /** "Unsupported operator" is never printed: `parse_op` only ever hands
      back `+`, `-` or `*`. */
  lemma NeverUnsupported<N>(lib: Lib<N>, s: seq<Vect<N>>, t: string)
    ensures Dispatch(lib, s, t).0 != Failed(UnsupportedOperator)
  {
    if SplitAssign(t).Some? {
      var asg := SplitAssign(t).value;
      AssignmentIsNoCommand(lib, s, t);
      if SplitOp(asg.right).Some? {
        SplitOpOperator(asg.right);
        OperatorSupported(lib, s, SplitOp(asg.right).value);
      }
    } else if SplitOp(t).Some? {
      OperationIsNoCommand(t);
      SplitOpOperator(t);
      OperatorSupported(lib, s, SplitOp(t).value);
    }
  }

  /** The operators `parse_op` knows are all handled. */
  lemma OperatorSupported<N>(lib: Lib<N>, s: seq<Vect<N>>, o: Operation)
    requires o.op in OPERATORS
    ensures Evaluate(lib, s, o) != Failure(UnsupportedOperator)
  {
  }

  /** `k * A` and `A * k` mean the same thing. */
  lemma ScaleEitherOrder<N>(lib: Lib<N>, s: seq<Vect<N>>, a: string, b: string)
    ensures Evaluate(lib, s, Operation(a, '*', b)) == Evaluate(lib, s, Operation(b, '*', a))
  {
  }

  /** Scaling succeeds exactly when one side is a number and the other a
      stored name. */
  lemma ScaleNeedsOneScalar<N>(lib: Lib<N>, s: seq<Vect<N>>, o: Operation)
    requires o.op == '*'
    ensures var r := Evaluate(lib, s, o);
      var an, bn := IsNumber(lib.strtod, o.a), IsNumber(lib.strtod, o.b);
      && (r == Failure(ScalarAndVector) <==> an == bn)
      && (r.Success? <==> (an && !bn && Lookup(s, o.b).Some?) || (!an && bn && Lookup(s, o.a).Some?))
  {
  }

  /** `A + B` and `A - B` succeed exactly when both names are stored; the
      result takes the first operand's name and flag. */
  lemma AddSubNeedBoth<N>(lib: Lib<N>, s: seq<Vect<N>>, o: Operation)
    requires o.op == '+' || o.op == '-'
    ensures var r := Evaluate(lib, s, o);
      && (r.Success? <==> Lookup(s, o.a).Some? && Lookup(s, o.b).Some?)
      && (r.Failure? ==> r.error == OperandsNotVectors)
      && (r.Success? ==> r.value.name == Lookup(s, o.a).value.name && r.value.inUse == Lookup(s, o.a).value.inUse)
  {
  }

  /** An operation reads the table only through its two operands. */
  lemma EvaluateReadsOnlyOperands<N>(lib: Lib<N>, s1: seq<Vect<N>>, s2: seq<Vect<N>>, o: Operation)
    requires Lookup(s1, o.a) == Lookup(s2, o.a) && Lookup(s1, o.b) == Lookup(s2, o.b)
    ensures Evaluate(lib, s1, o) == Evaluate(lib, s2, o)
  {
  }

  /** The table's invariant, plus: every slot in use has a non-empty name
      (the left side of an assignment is never empty). */
  ghost predicate Consistent<N>(s: seq<Vect<N>>, zero: N)
  {
    Wf(s, zero) && forall i :: 0 <= i < |s| && s[i].inUse ==> s[i].name != []
  }

  /** `store_set` keeps the table consistent when the name is non-empty. */
  lemma PutKeepsConsistent<N>(s: seq<Vect<N>>, zero: N, name: string, value: Vect<N>)
    requires Consistent(s, zero) && name != []
    ensures Consistent(Put(s, name, value).1, zero)
  {
    var named := value.(name := Truncate(name));
    InsertPreservesWf(s, zero, named);
    InsertPlacement(s, named);
  }

  /** Every turn keeps the table consistent. */
  lemma DispatchKeepsConsistent<N>(lib: Lib<N>, s: seq<Vect<N>>, t: string)
    requires Consistent(s, lib.zero)
    ensures Consistent(Dispatch(lib, s, t).1, lib.zero)
  {
    if SplitAssign(t).Some? {
      AssignmentIsNoCommand(lib, s, t);
      SplitAssignParts(t);
      AssignKeepsConsistent(lib, s, SplitAssign(t).value);
    } else {
      OnlyAssignmentBranchWrites(lib, s, t);
      if t == "clear" {
        EmptyTableIsClear(lib.zero);
      }
    }
  }

  /** The assignment branch keeps the table consistent. */
  lemma AssignKeepsConsistent<N>(lib: Lib<N>, s: seq<Vect<N>>, asg: Assignment)
    requires Consistent(s, lib.zero) && asg.left != []
    ensures Consistent(ExecuteAssign(lib, s, asg).1, lib.zero)
  {
    match Components(lib.strtod, asg.right)
    case Some(c) =>
      PutKeepsConsistent(s, lib.zero, asg.left, Vect(Truncate(asg.left), c, false));
    case None =>
      match SplitOp(asg.right)
      case None =>
      case Some(o) =>
        match Evaluate(lib, s, o)
        case Failure(_) =>
        case Success(r) =>
          PutKeepsConsistent(s, lib.zero, asg.left, r.(name := Truncate(asg.left)));
  }

  // ---------------------------------------------------------------------
  // Properties of a session

  /** The loop answers exactly one response per line up to and including
      the first `quit`: it answers every line unless it stops early, it
      stops early only on `quit`, and only the last response can be `quit`. */
  lemma {:induction false} ReplayStopsAtQuit<N>(lib: Lib<N>, s: seq<Vect<N>>, lines: seq<string>)
    ensures var rs := Replay(lib, s, lines);
      && |rs| <= |lines|
      && (|rs| < |lines| ==> rs != [] && rs[|rs| - 1].Quit?)
      && forall k :: 0 <= k < |rs| - 1 ==> !rs[k].Quit?
    decreases |lines|
  {
    if lines != [] {
      var (r, s') := Execute(lib, s, lines[0]);
      if !r.Quit? {
        ReplayStopsAtQuit(lib, s', lines[1..]);
        var rest := Replay(lib, s', lines[1..]);
        assert Replay(lib, s, lines) == [r] + rest;
        AnswerBeforeStop(r, rest, |lines| - 1);
      }
    }
  }

  /** A response other than `quit` in front of responses that stop at the
      first `quit` within `n` lines stops at it within `n + 1` lines. */
  lemma AnswerBeforeStop<N>(r: Response<N>, rest: seq<Response<N>>, n: nat)
    requires !r.Quit?
    requires |rest| <= n && (|rest| < n ==> rest != [] && rest[|rest| - 1].Quit?)
    requires forall k :: 0 <= k < |rest| - 1 ==> !rest[k].Quit?
    ensures var rs := [r] + rest;
      && |rs| <= n + 1
      && (|rs| < n + 1 ==> rs != [] && rs[|rs| - 1].Quit?)
      && forall k :: 0 <= k < |rs| - 1 ==> !rs[k].Quit?
  {
    var rs := [r] + rest;
    assert forall k :: 0 < k < |rs| ==> rs[k] == rest[k - 1];
  }

  /** The `k`-th response is the answer to line `k` on the table the
      first `k` lines left. */
  lemma {:induction false} ReplayResponses<N>(lib: Lib<N>, s: seq<Vect<N>>, lines: seq<string>, k: nat)
    requires k < |Replay(lib, s, lines)|
    ensures k < |lines|
    ensures Replay(lib, s, lines)[k] == Execute(lib, TableAfter(lib, s, lines[..k]), lines[k]).0
    decreases k
  {
    var (r, s') := Execute(lib, s, lines[0]);
    assert Replay(lib, s, lines) == [r] + (if r.Quit? then [] else Replay(lib, s', lines[1..]));
    if k == 0 {
      assert lines[..0] == [];
    } else {
      assert !r.Quit?;
      ReplayResponses(lib, s', lines[1..], k - 1);
      TableAfterFirst(lib, s, lines, k);
      assert lines[1..][k - 1] == lines[k];
    }
  }

  /** The table after the first `k` lines is the table the later `k - 1`
      of them leave, from the table the first line left. */
  lemma TableAfterFirst<N>(lib: Lib<N>, s: seq<Vect<N>>, lines: seq<string>, k: nat)
    requires 0 < k <= |lines|
    ensures TableAfter(lib, s, lines[..k]) == TableAfter(lib, Execute(lib, s, lines[0]).1, lines[1..][..k - 1])
  {
    assert lines[..k][0] == lines[0] && lines[..k][1..] == lines[1..][..k - 1];
  }

  /** The table after the loop has run over `lines` (ignoring `quit`). */
  function TableAfter<N>(lib: Lib<N>, s: seq<Vect<N>>, lines: seq<string>): seq<Vect<N>>
    decreases |lines|
  {
    if lines == [] then s else TableAfter(lib, Execute(lib, s, lines[0]).1, lines[1..])
  }

  /** Whatever the input, the table stays consistent from `store_init` on. */
  lemma {:induction false} SessionKeepsConsistent<N>(lib: Lib<N>, s: seq<Vect<N>>, lines: seq<string>)
    requires Consistent(s, lib.zero)
    ensures Consistent(TableAfter(lib, s, lines), lib.zero)
    decreases |lines|
  {
    if lines != [] {
      DispatchKeepsConsistent(lib, s, Trimmed(lines[0]));
      SessionKeepsConsistent(lib, Execute(lib, s, lines[0]).1, lines[1..]);
    }
  }

  /** The table `store_init` leaves is consistent. */
  lemma InitialTableConsistent<N>(zero: N)
    ensures Consistent(EmptyTable(zero), zero)
  {
    EmptyTableIsClear(zero);
  }
}
