/** The Forth interpreter over its global variables. */
module Forth {
  import opened Bits
  import opened ForthModel
  import opened ForthArithmetic

  /** Running, stopped in the endless loop after a message, or beyond what C defines. */
  datatype Status = Running | Halted | Undef

  /** No compiled cell points to ";". */
  ghost predicate SafeCells(dict: seq<Word>, cells: seq<Cell>) {
    forall i | 0 <= i < |cells| :: cells[i].Pointer? ==> cells[i].w < |dict| && dict[cells[i].w].body != Code(Semicolon)
  }

  /** ";" is immediate, so it is never compiled. */
  ghost predicate SafeDict(dict: seq<Word>) {
    forall i | 0 <= i < |dict| ::
      && (dict[i].body == Code(Semicolon) ==> dict[i].immediate)
      && (dict[i].body.Data? ==> SafeCells(dict, dict[i].body.cells))
  }

  class Machine {
    const stack: array<int32>
    var sp: nat
    var dict: seq<Word>
    var compiling: bool
    var current: Option<nat>
    var buffer: seq<Cell>
    var input: seq<string>
    var out: seq<Event>

    ghost predicate Valid()
      reads this
    {
      stack.Length == STACK_SIZE && sp <= STACK_SIZE && SafeDict(dict) && SafeCells(dict, buffer)
    }

    ghost function Abs(): State
      requires stack.Length == STACK_SIZE && sp <= STACK_SIZE
      reads this, stack
    {
      State(stack[..sp], dict, compiling, current, buffer, input, out)
    }

    /** The machine stands where the outcome says. */
    ghost predicate Reached(o: Outcome, st: Status)
      reads this, stack
    {
      match o
      case Ok(s) => st == Running && stack.Length == STACK_SIZE && sp <= STACK_SIZE && Abs() == s
      case Halt => st == Halted
      case Undefined => st == Undef
    }

    constructor ()
      ensures Valid() && fresh(stack) && Abs() == State([], [], false, None, [], [], [])
    {
      stack := new int32[STACK_SIZE];
      sp, dict, compiling, current, buffer, input, out := 0, [], false, None, [], [], [];
    }

    method PushValue(v: int32) returns (st: Status)
      requires Valid()
      modifies `sp, stack
      ensures Valid() && Reached(Push(old(Abs()), v), st)
      ensures old(sp) < STACK_SIZE ==> st == Running && sp == old(sp) + 1 && stack[..sp] == old(stack[..sp]) + [v]
      ensures old(sp) >= STACK_SIZE ==> st == Halted
    {
      if sp >= STACK_SIZE {
        return Halted;
      }
      stack[sp] := v;
      sp := sp + 1;
      st := Running;
    }

    method PopValue() returns (v: int32, st: Status)
      requires Valid()
      modifies `sp
      ensures Valid()
      ensures old(sp) == 0 ==> st == Halted && sp == 0
      ensures old(sp) > 0 ==> st == Running && sp == old(sp) - 1 && v == stack[sp]
    {
      if sp == 0 {
        return 0, Halted;
      }
      sp := sp - 1;
      v := stack[sp];
      st := Running;
    }

    /** The two-operand words. */
    method RunBinary(p: Prim) returns (st: Status)
      requires Valid() && IsBinary(p)
      modifies `sp, stack
      ensures Valid() && Reached(RunPrim(p, old(Abs())), st)
      ensures st == Halted <==> old(sp) < 2
      ensures st == Undef <==> old(sp) >= 2 && NoResult(p, old(stack[sp - 2]), old(stack[sp - 1]))
      ensures st == Running ==>
                && sp == old(sp) - 1 && stack[..sp - 1] == old(stack[..sp - 2])
                && IsResult(p, old(stack[sp - 2]), old(stack[sp - 1]), stack[sp - 1])
    {
      hide RunPrim, Binary, IsResult, NoResult, SafeDict, SafeCells;
      ghost var was := stack[..sp];
      BinaryMeans(p, Abs());
      var b, a;
      b, st := PopValue();
      if st != Running {
        return;
      }
      a, st := PopValue();
      if st != Running {
        return;
      }
      match Binary(p, a, b)
      case None => st := Undef;
      case Some(v) =>
        st := PushValue(v);
        assert stack[..sp] == was[..|was| - 2] + [v];
    }

    method RunSwap() returns (st: Status)
      requires Valid()
      modifies `sp, stack
      ensures Valid() && Reached(RunPrim(Swap, old(Abs())), st)
    {
      hide SafeDict, SafeCells, RunPrim, Push;
      ghost var was := stack[..sp];
      SwapIs(Abs());
      var a, b;
      a, st := PopValue();
      if st != Running {
        return;
      }
      b, st := PopValue();
      if st != Running {
        return;
      }
      st := PushValue(a);
      st := PushValue(b);
      assert stack[..sp] == was[..|was| - 2] + [a, b];
    }

    method RunOver() returns (st: Status)
      requires Valid()
      modifies `sp, stack
      ensures Valid() && Reached(RunPrim(Over, old(Abs())), st)
    {
      hide SafeDict, SafeCells, RunPrim, Push;
      ghost var was := stack[..sp];
      OverIs(Abs());
      var a, b;
      a, st := PopValue();
      if st != Running {
        return;
      }
      b, st := PopValue();
      if st != Running {
        return;
      }
      assert stack[..sp] == was[..|was| - 2];
      st := PushValue(b);
      st := PushValue(a);
      st := PushValue(b);
      assert was[..|was| - 2] + [b] + [a] == was;
      assert st == Running ==> stack[..sp] == was + [b];
    }

    method RunRot() returns (st: Status)
      requires Valid()
      modifies `sp, stack
      ensures Valid() && Reached(RunPrim(Rot, old(Abs())), st)
    {
      hide SafeDict, SafeCells, RunPrim, Push;
      ghost var was := stack[..sp];
      RotIs(Abs());
      var a, b, c;
      c, st := PopValue();
      if st != Running {
        return;
      }
      b, st := PopValue();
      if st != Running {
        return;
      }
      a, st := PopValue();
      if st != Running {
        return;
      }
      assert stack[..sp] == was[..|was| - 3];
      st := PushValue(b);
      st := PushValue(c);
      st := PushValue(a);
      assert was[..|was| - 3] + [b] + [c] + [a] == was[..|was| - 3] + [b, c, a];
    }

    method RunNot() returns (st: Status)
      requires Valid()
      modifies `sp, stack
      ensures Valid() && Reached(RunPrim(BitNot, old(Abs())), st)
    {
      hide SafeDict, SafeCells;
      ghost var was := stack[..sp];
      var a;
      a, st := PopValue();
      if st != Running {
        return;
      }
      st := PushValue(-(a as int) - 1);
      assert stack[..sp] == was[..|was| - 1] + [-(a as int) - 1];
    }

    /** The stack words. */
    method RunStackWord(p: Prim) returns (st: Status)
      requires Valid() && p in {Dup, Drop, Swap, Over, Rot, BitNot}
      modifies `sp, stack
      ensures Valid() && Reached(RunPrim(p, old(Abs())), st)
    {
      hide SafeDict, SafeCells;
      if p == Dup {
        if sp == 0 {
          return Undef;
        }
        st := PushValue(stack[sp - 1]);
      } else if p == Drop {
        var a;
        a, st := PopValue();
      } else if p == Swap {
        st := RunSwap();
      } else if p == Over {
        st := RunOver();
      } else if p == Rot {
        st := RunRot();
      } else {
        st := RunNot();
      }
    }

    method RunEmit() returns (st: Status)
      requires Valid()
      modifies `sp, `out
      ensures Valid() && Reached(RunPrim(Emit, old(Abs())), st)
    {
      hide SafeDict, SafeCells;
      var a;
      a, st := PopValue();
      if st == Running {
        out := out + [Char(Unsigned(a) % 256)];
      }
    }

    method RunDot() returns (st: Status)
      requires Valid()
      modifies `sp, `out
      ensures Valid() && Reached(RunPrim(Dot, old(Abs())), st)
    {
      hide SafeDict, SafeCells;
      var a;
      a, st := PopValue();
      if st == Running {
        out := out + [Number(a), Char(32)];
      }
    }

    /** The words that print. */
    method RunOutputWord(p: Prim) returns (st: Status)
      requires Valid() && p in {Emit, Cr, Dot, DotS, Words}
      modifies `sp, `out
      ensures Valid() && Reached(RunPrim(p, old(Abs())), st)
    {
      hide SafeDict, SafeCells, Listing, Names;
      st := Running;
      if p == Emit {
        st := RunEmit();
      } else if p == Cr {
        out := out + [Text("\n")];
      } else if p == Dot {
        st := RunDot();
      } else if p == DotS {
        PrintStack();
      } else {
        PrintWords();
      }
    }

    method PrintStack()
      requires Valid()
      modifies `out
      ensures out == old(out) + [Text("<sp="), Number(Wrap(sp)), Text("> ")] + Listing(stack[..sp]) + [Text("\n")]
    {
      out := out + [Text("<sp="), Number(Wrap(sp)), Text("> ")];
      ghost var before := out;
      for i := 0 to sp
        invariant out == before + Listing(stack[..i])
      {
        assert stack[..i + 1][..i] == stack[..i];
        out := out + [Number(stack[i]), Char(32)];
      }
      out := out + [Text("\n")];
    }

    method PrintWords()
      requires Valid()
      modifies `out
      ensures out == old(out) + [Text("Dictionary words:\n")] + Names(dict)
    {
      out := out + [Text("Dictionary words:\n")];
      ghost var all := out + Names(dict);
      var w := |dict|;
      assert dict[..w] == dict;
      while w > 0
        invariant w <= |dict| && out + Names(dict[..w]) == all
      {
        assert dict[..w][..w - 1] == dict[..w - 1];
        out := out + [Text("  "), Text(dict[w - 1].name), Text("\n")];
        w := w - 1;
      }
    }

    /** ":" adds the word at once and starts compiling. */
    method RunColon() returns (st: Status)
      requires Valid()
      modifies `dict, `compiling, `current, `buffer, `input, `out
      ensures Valid() && Reached(RunPrim(Colon, old(Abs())), st)
      ensures |old(dict)| <= |dict| && dict[..|old(dict)|] == old(dict)
    {
      st := Running;
      if input == [] {
        out := out + [Text("Error: expected word name after ':'\n")];
        return;
      }
      ghost var was := dict;
      dict := dict + [Word(input[0], false, Data([]))];
      current := Some(|dict| - 1);
      input := input[1..];
      buffer := [];
      compiling := true;
      SafeAfterColon(was, dict);
    }

    /** ";" */
    method RunSemicolon() returns (st: Status)
      requires Valid()
      modifies `dict, `compiling, `current, `buffer, `out
      ensures Valid() && Reached(RunPrim(Semicolon, old(Abs())), st)
    {
      st := Running;
      if !compiling {
        out := out + [Text("Error: ';' outside definition\n")];
        return;
      }
      FinishCompile();
    }

    /** end_compile */
    method FinishCompile()
      requires Valid()
      modifies `dict, `compiling, `current, `buffer
      ensures Valid() && Abs() == EndCompile(old(Abs()))
    {
      if current.Some? && current.value < |dict| {
        SafeAfterClose(dict, current.value, buffer);
        dict := dict[current.value := dict[current.value].(body := Data(buffer))];
      }
      buffer := [];
      compiling := false;
      current := None;
    }

    /** The code of a primitive. */
    method RunCode(p: Prim) returns (st: Status)
      requires Valid()
      modifies this, stack
      ensures Valid() && Reached(RunPrim(p, old(Abs())), st)
      ensures p != Semicolon ==> |old(dict)| <= |dict| && dict[..|old(dict)|] == old(dict)
    {
      hide SafeDict, SafeCells, RunPrim;
      if IsBinary(p) {
        st := RunBinary(p);
      } else if p in {Dup, Drop, Swap, Over, Rot, BitNot} {
        st := RunStackWord(p);
      } else if p == Colon {
        st := RunColon();
      } else if p == Semicolon {
        st := RunSemicolon();
      } else {
        st := RunOutputWord(p);
      }
    }

    /** find_word: the newest word of this name, or -1. */
    method FindWord(name: string) returns (w: int)
      ensures w == Find(dict, name, |dict|)
    {
      w := |dict| - 1;
      while w >= 0
        invariant -1 <= w < |dict| && Find(dict, name, |dict|) == Find(dict, name, w + 1)
      {
        var same := CompareNames(dict[w].name, name);
        if same {
          return;
        }
        w := w - 1;
      }
    }

    /** execute_word, for a word no other than ";" or a compiled one; older words never change meanwhile. */
    method ExecuteWord(w: nat, ghost words: seq<Word>) returns (st: Status)
      requires Valid() && w < |words| <= |dict| && dict[..|words|] == words
      modifies this, stack
      ensures Valid() && Reached(RunWord(words, w, old(Abs())), st)
      ensures words[w].body != Code(Semicolon) ==> |words| <= |dict| && dict[..|words|] == words
      decreases w, 2
    {
      hide SafeDict, SafeCells, RunPrim;
      assert dict[..|words|][w] == dict[w];
      match dict[w].body
      case Code(p) =>
        ghost var before := dict;
        st := RunCode(p);
        if p != Semicolon {
          PrefixStays(words, before, dict);
        }
      case Data(cells) =>
        DataIsSafe(dict, w);
        st := RunData(cells, w, words);
    }

    /** The cells of a compiled word in order. */
    method RunData(cells: seq<Cell>, w: nat, ghost words: seq<Word>) returns (st: Status)
      requires Valid() && w < |words| <= |dict| && dict[..|words|] == words && words[w].body == Data(cells)
      requires SafeCells(dict, cells)
      modifies this, stack
      ensures Valid() && Reached(RunCells(words, cells, w, old(Abs())), st)
      ensures |words| <= |dict| && dict[..|words|] == words
      decreases w, 1
    {
      hide SafeDict, RunCell, RunWord;
      st := Running;
      ghost var all := RunCells(words, cells, w, Abs());
      assert cells[0..] == cells;
      for i := 0 to |cells|
        invariant Valid() && st == Running && |words| <= |dict| && dict[..|words|] == words
        invariant RunCells(words, cells[i..], w, Abs()) == all
      {
        assert cells[i..][0] == cells[i] && cells[i..][1..] == cells[i + 1..];
        st := ExecuteCell(cells[i], w, words);
        if st != Running {
          return;
        }
      }
      assert cells[|cells|..] == [];
    }

    /** A number is pushed; a word is executed, which for a word inside itself would never end. */
    method ExecuteCell(cell: Cell, w: nat, ghost words: seq<Word>) returns (st: Status)
      requires Valid() && w < |words| <= |dict| && dict[..|words|] == words
      requires cell.Pointer? && cell.w < |words| ==> words[cell.w].body != Code(Semicolon)
      modifies this, stack
      ensures Valid() && Reached(RunCell(words, cell, w, old(Abs())), st)
      ensures |words| <= |dict| && dict[..|words|] == words
      decreases w, 0
    {
      hide SafeDict, SafeCells;
      match cell
      case Tagged(v) =>
        st := PushValue(Untag(v));
      case Pointer(i) =>
        if i >= w {
          return Undef;
        }
        st := ExecuteWord(i, words);
    }

    /** compile_item */
    method CompileItem(cell: Cell)
      requires Valid() && SafeCells(dict, [cell])
      modifies `buffer
      ensures Valid() && buffer == old(buffer) + [cell]
    {
      SafeAppend(dict, buffer, cell);
      buffer := buffer + [cell];
    }

    /** One round of interpret. */
    method OneToken() returns (st: Status)
      requires Valid() && input != []
      modifies this, stack
      ensures Valid() && Reached(Step(old(Abs())), st)
    {
      hide SafeDict, SafeCells, ParseNumber, Find, RunPrim, Push, Tag, Wrap;
      st := Running;
      var token := input[0];
      input := input[1..];
      var num := StrToL(token);
      if num.Some? {
        if compiling {
          SafeNumber(dict, Tag(num.value));
          CompileItem(Tagged(Tag(num.value)));
        } else {
          st := PushValue(Wrap(num.value));
        }
        return;
      }
      var w := FindWord(token);
      if w == -1 {
        out := out + [Text("Unknown word: "), Text(token), Text("\n")];
        input := [];
        if compiling {
          FinishCompile();
        }
      } else if compiling && !dict[w].immediate {
        SafePointer(dict, w);
        CompileItem(Pointer(w));
      } else {
        assert dict[..|dict|] == dict;
        st := ExecuteWord(w, dict);
      }
    }

    /** interpret, on the tokens of a line. */
    method InterpretLine() returns (st: Status)
      requires Valid()
      modifies this, stack
      ensures Valid() && Reached(Interpret(old(Abs())), st)
    {
      hide SafeDict, SafeCells, Step;
      st := Running;
      ghost var all := Interpret(Abs());
      while input != []
        invariant Valid() && st == Running && Interpret(Abs()) == all
        decreases |input|
      {
        st := OneToken();
        if st != Running {
          return;
        }
      }
    }

    /** add_word */
    method AddWord(name: string, p: Prim, immediate: bool)
      requires Valid() && (p == Semicolon ==> immediate)
      modifies `dict
      ensures Valid() && dict == old(dict) + [Word(name, immediate, Code(p))]
    {
      SafeAfterAdd(dict, Word(name, immediate, Code(p)), buffer);
      dict := dict + [Word(name, immediate, Code(p))];
    }

    /** init_forth: the words of the table, one after the other. */
    method InitForth()
      requires Valid() && dict == []
      modifies `dict
      ensures Valid() && dict == BUILTINS
    {
      hide SafeDict, SafeCells;
      for i := 0 to |BUILTINS|
        invariant Valid() && dict == BUILTINS[..i]
      {
        BuiltinIsCode(i);
        AddWord(BUILTINS[i].name, BUILTINS[i].body.p, BUILTINS[i].immediate);
        assert BUILTINS[..i] + [BUILTINS[i]] == BUILTINS[..i + 1];
      }
      assert BUILTINS[..|BUILTINS|] == BUILTINS;
    }
  }

  const BUILTINS: seq<Word> := [
    Word("+", false, Code(Plus)), Word("-", false, Code(Minus)), Word("*", false, Code(Times)),
    Word("/", false, Code(Divide)), Word("MOD", false, Code(Modulo)), Word("DUP", false, Code(Dup)),
    Word("DROP", false, Code(Drop)), Word("SWAP", false, Code(Swap)), Word("OVER", false, Code(Over)),
    Word("ROT", false, Code(Rot)), Word("EMIT", false, Code(Emit)), Word("CR", false, Code(Cr)),
    Word(".", false, Code(Dot)), Word(".S", false, Code(DotS)), Word("=", false, Code(Equal)),
    Word("<", false, Code(Less)), Word(">", false, Code(Greater)), Word("AND", false, Code(BitAnd)),
    Word("OR", false, Code(BitOr)), Word("NOT", false, Code(BitNot)), Word(":", false, Code(Colon)),
    Word(";", true, Code(Semicolon)), Word("WORDS", false, Code(Words))]

  /** Length and first letter, which no two built-in words share. */
  function NameKey(name: string): int {
    if name == "" then 0 else 256 * |name| + Lower(name[0]) as int
  }

  lemma SameNameSameKey(a: string, b: string)
    requires SameName(a, b)
    ensures NameKey(a) == NameKey(b)
  {
    if a != "" {
      assert Lower(a[0]) == Lower(b[0]);
    }
  }

  const NAME_KEYS := [299, 301, 298, 303, 877, 868, 1124, 1139, 1135, 882, 1125, 611,
                      302, 558, 317, 316, 318, 865, 623, 878, 314, 315, 1399]

  lemma BuiltinKey(i: nat)
    requires i < |BUILTINS|
    ensures |BUILTINS| == |NAME_KEYS| && NameKey(BUILTINS[i].name) == NAME_KEYS[i]
  {
    if i < 8 {
    } else if i < 16 {
    } else {
    }
  }

  lemma KeysDiffer(i: nat, j: nat)
    requires i < |NAME_KEYS| && j < |NAME_KEYS| && NAME_KEYS[i] == NAME_KEYS[j]
    ensures i == j
  {
  }

  /** The interpreter finds a built-in word by its name. */
  lemma BuiltinFound(i: nat)
    requires i < |BUILTINS|
    ensures Find(BUILTINS, BUILTINS[i].name, |BUILTINS|) == i
  {
    hide *;
    var r := Find(BUILTINS, BUILTINS[i].name, |BUILTINS|);
    SameNameItself(BUILTINS[i].name);
    assert r >= 0;
    SameNameSameKey(BUILTINS[r].name, BUILTINS[i].name);
    BuiltinKey(i);
    BuiltinKey(r);
    KeysDiffer(i, r);
  }

  lemma SameNameItself(a: string)
    ensures SameName(a, a)
  {
  }

  /** The name, looked up among the built-in words, is that of the primitive. */
  predicate Means(name: string, p: Prim) {
    var i := Find(BUILTINS, name, |BUILTINS|);
    i >= 0 && BUILTINS[i].body == Code(p)
  }

  lemma MeansAt(i: nat, name: string, p: Prim)
    requires i < |BUILTINS| && BUILTINS[i].name == name && BUILTINS[i].body == Code(p)
    ensures Means(name, p)
  {
    BuiltinFound(i);
  }

  /** Every built-in name reaches its own primitive: sums and products, */
  lemma SumNames()
    ensures Means("+", Plus) && Means("-", Minus) && Means("*", Times)
  {
    hide Means, Find, SameName, NameKey;
    MeansAt(0, "+", Plus);
    MeansAt(1, "-", Minus);
    MeansAt(2, "*", Times);
  }

  /** quotients, */
  lemma QuotientNames()
    ensures Means("/", Divide) && Means("MOD", Modulo)
  {
    hide Means, Find, SameName, NameKey;
    MeansAt(3, "/", Divide);
    MeansAt(4, "MOD", Modulo);
  }

  /** comparison, */
  lemma ComparisonNames()
    ensures Means("=", Equal) && Means("<", Less) && Means(">", Greater)
  {
    hide Means, Find, SameName, NameKey;
    MeansAt(14, "=", Equal);
    MeansAt(15, "<", Less);
    MeansAt(16, ">", Greater);
  }

  /** logic, */
  lemma LogicNames()
    ensures Means("AND", BitAnd) && Means("OR", BitOr) && Means("NOT", BitNot)
  {
    hide Means, Find, SameName, NameKey;
    MeansAt(17, "AND", BitAnd);
    MeansAt(18, "OR", BitOr);
    MeansAt(19, "NOT", BitNot);
  }

  /** copies, */
  lemma CopyNames()
    ensures Means("DUP", Dup) && Means("DROP", Drop) && Means("OVER", Over)
  {
    hide Means, Find, SameName, NameKey;
    MeansAt(5, "DUP", Dup);
    MeansAt(6, "DROP", Drop);
    MeansAt(8, "OVER", Over);
  }

  /** order of the stack, */
  lemma OrderNames()
    ensures Means("SWAP", Swap) && Means("ROT", Rot)
  {
    hide Means, Find, SameName, NameKey;
    MeansAt(7, "SWAP", Swap);
    MeansAt(9, "ROT", Rot);
  }

  /** output, */
  lemma OutputNames()
    ensures Means("EMIT", Emit) && Means("CR", Cr) && Means(".", Dot)
  {
    hide Means, Find, SameName, NameKey;
    MeansAt(10, "EMIT", Emit);
    MeansAt(11, "CR", Cr);
    MeansAt(12, ".", Dot);
  }

  /** listings */
  lemma ListingNames()
    ensures Means(".S", DotS) && Means("WORDS", Words)
  {
    hide Means, Find, SameName, NameKey;
    MeansAt(13, ".S", DotS);
    MeansAt(22, "WORDS", Words);
  }

  /** and definitions. */
  lemma DefiningNames()
    ensures Means(":", Colon) && Means(";", Semicolon)
  {
    hide Means, Find, SameName, NameKey;
    MeansAt(20, ":", Colon);
    MeansAt(21, ";", Semicolon);
  }

  /* ---- A line of arithmetic ---- */

  lemma NumberStep(s: State, n: int)
    requires s.input != [] && !s.compiling && ParseNumber(s.input[0]) == Some(n) && |s.stack| < STACK_SIZE
    ensures Step(s) == Ok(s.(input := s.input[1..], stack := s.stack + [Wrap(n)]))
  {
    hide ParseNumber, Wrap, Find;
  }

  lemma WordStep(s: State, p: Prim)
    requires s.input != [] && !s.compiling && s.dict == BUILTINS
    requires ParseNumber(s.input[0]) == None && Means(s.input[0], p)
    ensures Step(s) == RunPrim(p, s.(input := s.input[1..]))
  {
    hide ParseNumber, RunPrim, Find;
  }

  /** A two-operand word in terms of its result. */
  lemma BinaryMeans(p: Prim, s: State)
    requires IsBinary(p)
    ensures var n, o := |s.stack|, RunPrim(p, s);
            if n < 2 then o == Halt
            else
              var a, b := s.stack[n - 2], s.stack[n - 1];
              match Binary(p, a, b)
              case None => NoResult(p, a, b) && o == Undefined
              case Some(v) => !NoResult(p, a, b) && IsResult(p, a, b, v) && o == Ok(s.(stack := s.stack[..n - 2] + [v]))
  {
    hide Binary, IsResult, NoResult;
    var n := |s.stack|;
    if n >= 2 {
      BinaryIs(p, s.stack[n - 2], s.stack[n - 1]);
    }
  }

  lemma InterpretMore(s: State, s': State)
    requires s.input != [] && Step(s) == Ok(s')
    ensures Interpret(s) == Interpret(s')
  {
    hide Step;
  }

  /** Two numbers, a two-operand word and "." print the result of the word and leave all else as it was. */
  lemma ArithmeticLine(s: State, x: string, y: string, op: string, a: int, b: int, p: Prim) returns (v: int32)
    requires s.dict == BUILTINS && !s.compiling && |s.stack| + 2 <= STACK_SIZE && s.input == [x, y, op, "."]
    requires ParseNumber(x) == Some(a) && ParseNumber(y) == Some(b) && ParseNumber(op) == None
    requires Means(op, p) && IsBinary(p) && !NoResult(p, Wrap(a), Wrap(b))
    ensures IsResult(p, Wrap(a), Wrap(b), v)
    ensures Interpret(s) == Ok(s.(input := [], out := s.out + [Number(v), Char(32)]))
  {
    hide ParseNumber, Wrap, Binary, IsResult, NoResult, RunPrim, Means, Step;
    var s1 := s.(input := s.input[1..], stack := s.stack + [Wrap(a)]);
    var s2 := s1.(input := s1.input[1..], stack := s1.stack + [Wrap(b)]);
    assert s1.input[0] == y && s2.input[0] == op && s2.input[1..] == ["."];
    NumberStep(s, a);
    NumberStep(s1, b);
    InterpretMore(s, s1);
    InterpretMore(s1, s2);
    var t2 := s2.(input := ["."]);
    WordStep(s2, p);
    BinaryMeans(p, t2);
    v := Binary(p, Wrap(a), Wrap(b)).value;
    assert t2.stack[..|s.stack|] == s.stack;
    var s3 := t2.(stack := s.stack + [v]);
    InterpretMore(s2, s3);
    PrintsLast(s3, s.stack, v);
  }

  /** "." at the end of a line. */
  lemma PrintsLast(s: State, below: seq<int32>, v: int32)
    requires s.dict == BUILTINS && !s.compiling && s.input == ["."] && s.stack == below + [v]
    ensures Interpret(s) == Ok(s.(input := [], stack := below, out := s.out + [Number(v), Char(32)]))
  {
    assert ParseNumber(".") == None;
    hide ParseNumber, RunPrim, Means, Step;
    OutputNames();
    WordStep(s, Dot);
    assert s.input[1..] == [];
    PrintStep(s.(input := []), below, v);
    InterpretMore(s, s.(input := [], stack := below, out := s.out + [Number(v), Char(32)]));
  }

  lemma PrintStep(s: State, below: seq<int32>, v: int32)
    requires s.stack == below + [v]
    ensures RunPrim(Dot, s) == Ok(s.(stack := below, out := s.out + [Number(v), Char(32)]))
  {
    assert s.stack[..|s.stack| - 1] == below;
  }

  lemma BuiltinIsCode(i: nat)
    requires i < |BUILTINS|
    ensures BUILTINS[i].body.Code? && (BUILTINS[i].body.p == Semicolon ==> BUILTINS[i].immediate)
    ensures BUILTINS[i] == Word(BUILTINS[i].name, BUILTINS[i].immediate, Code(BUILTINS[i].body.p))
  {
  }

  lemma SafeAppend(dict: seq<Word>, cells: seq<Cell>, cell: Cell)
    requires SafeCells(dict, cells) && SafeCells(dict, [cell])
    ensures SafeCells(dict, cells + [cell])
  {
    assert [cell][0] == cell;
  }

  lemma SafeNumber(dict: seq<Word>, v: uint32)
    ensures SafeCells(dict, [Tagged(v)])
  {
  }

  lemma SafePointer(dict: seq<Word>, w: nat)
    requires SafeDict(dict) && w < |dict| && !dict[w].immediate
    ensures SafeCells(dict, [Pointer(w)])
  {
  }

  lemma SafeAfterAdd(dict: seq<Word>, word: Word, buffer: seq<Cell>)
    requires SafeDict(dict) && SafeCells(dict, buffer)
    requires word.body.Code? && (word.body.p == Semicolon ==> word.immediate)
    ensures SafeDict(dict + [word]) && SafeCells(dict + [word], buffer)
  {
    var dict' := dict + [word];
    forall i | 0 <= i < |dict'| && dict'[i].body.Data? ensures SafeCells(dict', dict'[i].body.cells) {
      assert i < |dict| && SafeCells(dict, dict[i].body.cells);
    }
  }

  lemma PrefixStays(words: seq<Word>, before: seq<Word>, after: seq<Word>)
    requires |words| <= |before| <= |after| && before[..|words|] == words && after[..|before|] == before
    ensures after[..|words|] == words
  {
    assert after[..|before|][..|words|] == after[..|words|];
  }

  lemma DataIsSafe(dict: seq<Word>, w: nat)
    requires SafeDict(dict) && w < |dict| && dict[w].body.Data?
    ensures SafeCells(dict, dict[w].body.cells)
  {
  }

  /** my_strcasecmp as a test for equality. */
  method CompareNames(a: string, b: string) returns (same: bool)
    ensures same == SameName(a, b)
  {
    var i := 0;
    while i < |a| && i < |b|
      invariant i <= |a| && i <= |b| && forall j | 0 <= j < i :: Lower(a[j]) == Lower(b[j])
    {
      if Lower(a[i]) != Lower(b[i]) {
        return false;
      }
      i := i + 1;
    }
    same := |a| == |b|;
  }

  /** my_strtol on a whole word: its value, if the word is a number. */
  method StrToL(s: string) returns (r: Option<int>)
    ensures r == ParseNumber(s)
  {
    hide IsDigit;
    var i, sign := 0, 1;
    if s != "" && s[0] == '-' {
      i, sign := 1, -1;
    } else if s != "" && s[0] == '+' {
      i := 1;
    }
    ghost var digits := s[i..];
    var start := i;
    var result: nat := 0;
    assert digits[..0] == "";
    while i < |s| && IsDigit(s[i])
      invariant start <= i <= |s| && DigitsValue(digits[..i - start]) == Some(result)
    {
      MoreDigits(digits, i - start);
      result := 10 * result + DigitValue(s[i]);
      i := i + 1;
    }
    assert s[0..] == s;
    if i == start || i < |s| {
      if i < |s| {
        NotDigits(digits, i - start);
      }
      return None;
    }
    assert digits[..i - start] == digits;
    r := Some(result * sign);
  }

  lemma MoreDigits(digits: string, n: nat)
    requires n < |digits|
    ensures digits[..n + 1][..n] == digits[..n] && digits[..n + 1][n] == digits[n]
  {
  }

  lemma {:induction false} NotDigits(digits: string, i: nat)
    requires i < |digits| && !IsDigit(digits[i])
    ensures DigitsValue(digits) == None
    decreases |digits|
  {
    var n := |digits| - 1;
    if i < n {
      NotDigits(digits[..n], i);
    }
  }

  lemma SwapIs(s: State)
    ensures var n := |s.stack|;
            RunPrim(Swap, s) ==
            if n < 2 then Halt else Ok(s.(stack := s.stack[..n - 2] + [s.stack[n - 1], s.stack[n - 2]]))
  {
  }

  lemma OverIs(s: State)
    ensures var n := |s.stack|;
            RunPrim(Over, s) ==
            if n < 2 || n >= STACK_SIZE then Halt else Ok(s.(stack := s.stack + [s.stack[n - 2]]))
  {
  }

  lemma RotIs(s: State)
    ensures var n := |s.stack|;
            RunPrim(Rot, s) ==
            if n < 3 then Halt
            else Ok(s.(stack := s.stack[..n - 3] + [s.stack[n - 2], s.stack[n - 1], s.stack[n - 3]]))
  {
  }

  lemma SafeAfterColon(dict: seq<Word>, dict': seq<Word>)
    requires SafeDict(dict) && |dict'| == |dict| + 1 && dict' == dict + [dict'[|dict|]]
    requires dict'[|dict|].body == Data([])
    ensures SafeDict(dict') && SafeCells(dict', [])
  {
    forall i | 0 <= i < |dict'| && dict'[i].body.Data? ensures SafeCells(dict', dict'[i].body.cells) {
      if i < |dict| {
        assert SafeCells(dict, dict[i].body.cells);
      }
    }
  }

  lemma SafeAfterClose(dict: seq<Word>, c: nat, cells: seq<Cell>)
    requires SafeDict(dict) && c < |dict| && SafeCells(dict, cells)
    ensures SafeDict(dict[c := dict[c].(body := Data(cells))])
  {
    var dict' := dict[c := dict[c].(body := Data(cells))];
    forall i | 0 <= i < |dict'| && dict'[i].body.Data? ensures SafeCells(dict', dict'[i].body.cells) {
      if i != c {
        assert SafeCells(dict, dict[i].body.cells);
      }
    }
  }
}
