/** Compiling a definition preserves the meaning of its body. */
module ForthMeaning {
  import opened Bits
  import opened ForthModel

  /* ---- Words that only work on the stack and the output ---- */

  /** The word reaches neither these primitives nor itself. */
  ghost predicate Avoids(words: seq<Word>, w: nat, bad: set<Prim>)
    decreases w
  {
    w < |words| &&
    match words[w].body
    case Code(p) => p !in bad
    case Data(cells) => forall i | 0 <= i < |cells| :: AvoidsCell(words, cells[i], w, bad)
  }

  ghost predicate AvoidsCell(words: seq<Word>, cell: Cell, limit: nat, bad: set<Prim>)
    decreases limit, 0
  {
    cell.Pointer? ==> cell.w < limit && Avoids(words, cell.w, bad)
  }

  const DEFINING: set<Prim> := {Colon, Semicolon}

  /** The word reaches neither the defining words nor itself. */
  ghost predicate Plain(words: seq<Word>, w: nat) {
    Avoids(words, w, DEFINING)
  }

  ghost predicate PlainCell(words: seq<Word>, cell: Cell, limit: nat) {
    AvoidsCell(words, cell, limit, DEFINING)
  }

  /** Nor does it list the dictionary. */
  ghost predicate Silent(words: seq<Word>, w: nat) {
    Avoids(words, w, DEFINING + {Words})
  }

  function WithInput(o: Outcome, x: seq<string>): Outcome {
    match o
    case Ok(s) => Ok(s.(input := x))
    case _ => o
  }

  /** Everything but stack and output is as before. */
  ghost predicate Quiet(o: Outcome, s: State) {
    o.Ok? ==>
      && o.s.dict == s.dict && o.s.compiling == s.compiling && o.s.current == s.current
      && o.s.buffer == s.buffer && o.s.input == s.input
  }

  lemma PlainPrim(p: Prim, s: State, x: seq<string>)
    requires p != Colon && p != Semicolon
    ensures Quiet(RunPrim(p, s), s)
    ensures RunPrim(p, s.(input := x)) == WithInput(RunPrim(p, s), x)
  {
    if IsBinary(p) {
      PlainBinary(p, s, x);
    } else {
      PlainOther(p, s, x);
    }
  }

  lemma PlainBinary(p: Prim, s: State, x: seq<string>)
    requires IsBinary(p)
    ensures Quiet(RunPrim(p, s), s)
    ensures RunPrim(p, s.(input := x)) == WithInput(RunPrim(p, s), x)
  {
    hide Binary;
  }

  lemma PlainOther(p: Prim, s: State, x: seq<string>)
    requires p != Colon && p != Semicolon && !IsBinary(p)
    ensures Quiet(RunPrim(p, s), s)
    ensures RunPrim(p, s.(input := x)) == WithInput(RunPrim(p, s), x)
  {
    hide Binary, Listing, Names, Unsigned, Wrap;
  }

  lemma {:induction false} PlainWord(words: seq<Word>, w: nat, s: State, x: seq<string>)
    requires Plain(words, w)
    ensures Quiet(RunWord(words, w, s), s)
    ensures RunWord(words, w, s.(input := x)) == WithInput(RunWord(words, w, s), x)
    decreases w, 1, 0
  {
    hide RunPrim;
    match words[w].body
    case Code(p) => PlainPrim(p, s, x);
    case Data(cells) => PlainCells(words, cells, w, s, x);
  }

  lemma {:induction false} PlainCells(words: seq<Word>, cells: seq<Cell>, limit: nat, s: State, x: seq<string>)
    requires limit <= |words| && forall i | 0 <= i < |cells| :: PlainCell(words, cells[i], limit)
    ensures Quiet(RunCells(words, cells, limit, s), s)
    ensures RunCells(words, cells, limit, s.(input := x)) == WithInput(RunCells(words, cells, limit, s), x)
    decreases limit, 0, |cells|
  {
    hide RunCell, PlainCell;
    if cells != [] {
      assert PlainCell(words, cells[0], limit);
      RunPlainCell(words, cells[0], limit, s, x);
      var o := RunCell(words, cells[0], limit, s);
      if o.Ok? {
        forall i | 0 <= i < |cells[1..]| ensures PlainCell(words, cells[1..][i], limit) {
          assert cells[1..][i] == cells[i + 1];
        }
        PlainCells(words, cells[1..], limit, o.s, x);
      }
    }
  }

  lemma {:induction false} RunPlainCell(words: seq<Word>, cell: Cell, limit: nat, s: State, x: seq<string>)
    requires limit <= |words| && PlainCell(words, cell, limit)
    ensures Quiet(RunCell(words, cell, limit, s), s)
    ensures RunCell(words, cell, limit, s.(input := x)) == WithInput(RunCell(words, cell, limit, s), x)
    decreases limit, 0, 0
  {
    hide RunWord;
    if cell.Pointer? {
      PlainWord(words, cell.w, s, x);
    }
  }

  /** Words added later change nothing about running an old one. */
  lemma {:induction false} LaterWords(words: seq<Word>, more: seq<Word>, w: nat, s: State)
    requires w < |words|
    ensures RunWord(words + more, w, s) == RunWord(words, w, s)
    decreases w, 1, 0
  {
    match words[w].body
    case Code(p) =>
    case Data(cells) => LaterCells(words, more, cells, w, s);
  }

  lemma {:induction false} LaterCells(words: seq<Word>, more: seq<Word>, cells: seq<Cell>, limit: nat, s: State)
    requires limit <= |words|
    ensures RunCells(words + more, cells, limit, s) == RunCells(words, cells, limit, s)
    decreases limit, 0, |cells|
  {
    if cells != [] {
      match cells[0]
      case Tagged(v) =>
      case Pointer(i) =>
        if i < limit {
          LaterWords(words, more, i, s);
        }
    }
    if cells != [] && RunCell(words, cells[0], limit, s).Ok? {
      LaterCells(words, more, cells[1..], limit, RunCell(words, cells[0], limit, s).s);
    }
  }

  /* ---- Other dictionaries ---- */

  function Moved(o: Outcome, d: seq<Word>, x: seq<string>): Outcome {
    match o
    case Ok(s) => Ok(s.(dict := d, input := x))
    case _ => o
  }

  /** A silent word does the same under any dictionary and before any input. */
  lemma {:induction false} SilentWord(words: seq<Word>, w: nat, s: State, d: seq<Word>, x: seq<string>)
    requires Silent(words, w)
    ensures RunWord(words, w, s.(dict := d, input := x)) == Moved(RunWord(words, w, s), d, x)
    decreases w, 1, 0
  {
    hide RunPrim;
    match words[w].body
    case Code(p) => SilentPrim(p, s, d, x);
    case Data(cells) => SilentCells(words, cells, w, s, d, x);
  }

  lemma {:induction false} SilentCells(words: seq<Word>, cells: seq<Cell>, limit: nat, s: State, d: seq<Word>,
                                       x: seq<string>)
    requires limit <= |words| && forall i | 0 <= i < |cells| :: AvoidsCell(words, cells[i], limit, DEFINING + {Words})
    ensures RunCells(words, cells, limit, s.(dict := d, input := x)) == Moved(RunCells(words, cells, limit, s), d, x)
    decreases limit, 0, |cells|
  {
    hide RunWord, AvoidsCell;
    if cells != [] {
      assert AvoidsCell(words, cells[0], limit, DEFINING + {Words});
      SilentCell(words, cells[0], limit, s, d, x);
      var o := RunCell(words, cells[0], limit, s);
      if o.Ok? {
        SilentCells(words, cells[1..], limit, o.s, d, x);
      }
    }
  }

  lemma {:induction false} SilentCell(words: seq<Word>, cell: Cell, limit: nat, s: State, d: seq<Word>, x: seq<string>)
    requires limit <= |words| && AvoidsCell(words, cell, limit, DEFINING + {Words})
    ensures RunCell(words, cell, limit, s.(dict := d, input := x)) == Moved(RunCell(words, cell, limit, s), d, x)
    decreases limit, 0, 0
  {
    hide RunWord;
    if cell.Pointer? {
      SilentWord(words, cell.w, s, d, x);
    }
  }

  lemma SilentPrim(p: Prim, s: State, d: seq<Word>, x: seq<string>)
    requires p !in DEFINING + {Words}
    ensures RunPrim(p, s.(dict := d, input := x)) == Moved(RunPrim(p, s), d, x)
  {
    hide Binary, Listing, Names, Unsigned, Wrap;
  }

  /** The same kind of outcome, with the same stack. */
  predicate SameStack(o: Outcome, o': Outcome) {
    o.Ok? == o'.Ok? && o.Halt? == o'.Halt? && (o.Ok? ==> o.s.stack == o'.s.stack)
  }

  /** The second run prints as much as the first, and more if it must. */
  predicate PrintsMore(o: Outcome, s: State, o': Outcome, s': State, strictly: bool) {
    o.Ok? && o'.Ok? ==>
      |o'.s.out| + |s.out| >= |o.s.out| + |s'.out| + (if strictly then 1 else 0)
  }

  /** What a plain word does to the stack depends on the stack alone; what it prints grows with the dictionary exactly
      if it lists it. */
  lemma {:induction false} StackWord(words: seq<Word>, w: nat, s: State, s': State)
    requires Plain(words, w) && s.stack == s'.stack && |s.dict| <= |s'.dict|
    ensures SameStack(RunWord(words, w, s), RunWord(words, w, s'))
    ensures PrintsMore(RunWord(words, w, s), s, RunWord(words, w, s'), s', !Silent(words, w) && |s.dict| < |s'.dict|)
    decreases w, 1, 0
  {
    hide RunPrim;
    match words[w].body
    case Code(p) => StackPrim(p, s, s');
    case Data(cells) => StackCells(words, cells, w, s, s');
  }

  lemma {:induction false} StackCells(words: seq<Word>, cells: seq<Cell>, limit: nat, s: State, s': State)
    requires limit <= |words| && forall i | 0 <= i < |cells| :: PlainCell(words, cells[i], limit)
    requires s.stack == s'.stack && |s.dict| <= |s'.dict|
    ensures SameStack(RunCells(words, cells, limit, s), RunCells(words, cells, limit, s'))
    ensures PrintsMore(RunCells(words, cells, limit, s), s, RunCells(words, cells, limit, s'), s',
              (exists i | 0 <= i < |cells| :: !AvoidsCell(words, cells[i], limit, DEFINING + {Words})) &&
              |s.dict| < |s'.dict|)
    decreases limit, 0, |cells|
  {
    hide RunCell, PlainCell, AvoidsCell;
    if cells != [] {
      assert PlainCell(words, cells[0], limit);
      StackCell(words, cells[0], limit, s, s');
      RunPlainCell(words, cells[0], limit, s, s.input);
      RunPlainCell(words, cells[0], limit, s', s'.input);
      var o, o' := RunCell(words, cells[0], limit, s), RunCell(words, cells[0], limit, s');
      if o.Ok? {
        StackCells(words, cells[1..], limit, o.s, o'.s);
        ListsSomewhere(words, cells, limit);
      }
    }
  }

  lemma ListsSomewhere(words: seq<Word>, cells: seq<Cell>, limit: nat)
    requires cells != [] && limit <= |words|
    ensures (exists i | 0 <= i < |cells| :: !AvoidsCell(words, cells[i], limit, DEFINING + {Words})) ==>
              !AvoidsCell(words, cells[0], limit, DEFINING + {Words}) ||
              exists i | 0 <= i < |cells[1..]| :: !AvoidsCell(words, cells[1..][i], limit, DEFINING + {Words})
  {
    hide AvoidsCell;
    forall i | 0 < i < |cells|
      ensures cells[1..][i - 1] == cells[i]
    {
    }
  }

  lemma {:induction false} StackCell(words: seq<Word>, cell: Cell, limit: nat, s: State, s': State)
    requires limit <= |words| && PlainCell(words, cell, limit) && s.stack == s'.stack && |s.dict| <= |s'.dict|
    ensures SameStack(RunCell(words, cell, limit, s), RunCell(words, cell, limit, s'))
    ensures PrintsMore(RunCell(words, cell, limit, s), s, RunCell(words, cell, limit, s'), s',
              !AvoidsCell(words, cell, limit, DEFINING + {Words}) && |s.dict| < |s'.dict|)
    decreases limit, 0, 0
  {
    hide RunWord;
    if cell.Pointer? {
      StackWord(words, cell.w, s, s');
    }
  }

  lemma StackPrim(p: Prim, s: State, s': State)
    requires p !in DEFINING && s.stack == s'.stack && |s.dict| <= |s'.dict|
    ensures SameStack(RunPrim(p, s), RunPrim(p, s'))
    ensures PrintsMore(RunPrim(p, s), s, RunPrim(p, s'), s', p == Words && |s.dict| < |s'.dict|)
  {
    hide Binary, Listing, Names, Unsigned, Wrap;
    NamesLength(s.dict);
    NamesLength(s'.dict);
  }

  lemma {:induction false} NamesLength(dict: seq<Word>)
    ensures |Names(dict)| == 3 * |dict|
  {
    if dict != [] {
      NamesLength(dict[..|dict| - 1]);
    }
  }

  /* ---- Bodies ---- */

  /** What compiling a token appends. */
  function CellOf(dict: seq<Word>, token: string): Cell {
    match ParseNumber(token)
    case Some(n) => Tagged(Tag(n))
    case None =>
      var w := Find(dict, token, |dict|);
      if w == -1 then Tagged(0) else Pointer(w)
  }

  function CellsOf(dict: seq<Word>, body: seq<string>): (r: seq<Cell>)
    ensures |r| == |body|
  {
    if body == [] then [] else [CellOf(dict, body[0])] + CellsOf(dict, body[1..])
  }

  /** A number, or a known word that may stand in a definition. */
  ghost predicate TokenKnown(dict: seq<Word>, token: string) {
    ParseNumber(token).None? ==>
      var w := Find(dict, token, |dict|); w != -1 && !dict[w].immediate
  }

  /** A number of 31 bits, or a known word older than limit that only works on the stack and the output. */
  ghost predicate TokenOk(dict: seq<Word>, token: string, limit: nat) {
    match ParseNumber(token)
    case Some(n) => -0x4000_0000 <= n < 0x4000_0000
    case None => var w := Find(dict, token, |dict|); 0 <= w < limit && !dict[w].immediate && Plain(dict, w)
  }

  ghost predicate BodyOk(dict: seq<Word>, body: seq<string>, limit: nat) {
    forall i | 0 <= i < |body| :: TokenOk(dict, body[i], limit)
  }

  /** Compiling a body appends its cells. */
  lemma {:induction false} BodyCompiles(body: seq<string>, rest: seq<string>, s: State)
    requires s.compiling && s.input == body + rest && forall i | 0 <= i < |body| :: TokenKnown(s.dict, body[i])
    ensures Interpret(s) == Interpret(s.(buffer := s.buffer + CellsOf(s.dict, body), input := rest))
    decreases |body|
  {
    hide ParseNumber, Find, RunWord, Push;
    if body == [] {
      assert body + rest == rest && s.buffer + [] == s.buffer;
    } else {
      assert TokenKnown(s.dict, body[0]);
      assert (body + rest)[1..] == body[1..] + rest;
      var c := CellOf(s.dict, body[0]);
      var s' := s.(buffer := s.buffer + [c], input := body[1..] + rest);
      assert Step(s) == Ok(s');
      BodyCompiles(body[1..], rest, s');
      assert s.buffer + [c] + CellsOf(s.dict, body[1..]) == s.buffer + CellsOf(s.dict, body);
    }
  }

  /** Interpreting a body is running its cells. */
  lemma {:induction false} BodyRuns(body: seq<string>, rest: seq<string>, limit: nat, s: State)
    requires !s.compiling && s.input == body + rest && limit <= |s.dict| && BodyOk(s.dict, body, limit)
    ensures Interpret(s) == Then(RunCells(s.dict, CellsOf(s.dict, body), limit, s.(input := rest)))
    decreases |body|
  {
    hide ParseNumber, Find, RunWord, Push, Tag, Untag, Wrap, Plain;
    if body == [] {
      assert body + rest == rest;
    } else {
      assert TokenOk(s.dict, body[0], limit);
      TokenRuns(body, rest, limit, s);
      var c := CellOf(s.dict, body[0]);
      var o := RunCell(s.dict, c, limit, s.(input := body[1..] + rest));
      assert CellsOf(s.dict, body)[1..] == CellsOf(s.dict, body[1..]);
      if o.Ok? {
        forall i | 0 <= i < |body[1..]| ensures TokenOk(s.dict, body[1..][i], limit) {
          assert body[1..][i] == body[i + 1];
        }
        BodyRuns(body[1..], rest, limit, o.s);
      }
    }
  }

  /** One token is one cell, whatever follows in the input. */
  lemma TokenRuns(body: seq<string>, rest: seq<string>, limit: nat, s: State)
    requires !s.compiling && body != [] && s.input == body + rest && limit <= |s.dict|
    requires TokenOk(s.dict, body[0], limit)
    ensures var c := CellOf(s.dict, body[0]); var s1 := s.(input := body[1..] + rest);
            && Step(s) == RunCell(s.dict, c, limit, s1)
            && Quiet(RunCell(s.dict, c, limit, s1), s1)
            && RunCell(s.dict, c, limit, s.(input := rest)) == WithInput(RunCell(s.dict, c, limit, s1), rest)
  {
    hide ParseNumber, Find, RunWord, Tag, Untag, Wrap;
    assert (body + rest)[1..] == body[1..] + rest;
    var s1 := s.(input := body[1..] + rest);
    match ParseNumber(body[0])
    case Some(n) =>
      UntagTag(n);
      WrapSmall(n);
    case None =>
      var w := Find(s.dict, body[0], |s.dict|);
      PlainWord(s.dict, w, s1, rest);
  }

  lemma WrapSmall(n: int)
    requires -0x4000_0000 <= n < 0x4000_0000
    ensures Wrap(n) == n
  {
  }

  /* ---- Definitions ---- */

  /** The word under definition, and the word after ";". */
  function Opened(dict: seq<Word>, name: string): seq<Word> {
    dict + [Word(name, false, Data([]))]
  }

  function Defined(dict: seq<Word>, name: string, body: seq<string>): seq<Word> {
    dict + [Word(name, false, Data(CellsOf(Opened(dict, name), body)))]
  }

  lemma {:induction false} FindByNames(d: seq<Word>, d': seq<Word>, name: string, n: nat)
    requires n <= |d| && n <= |d'| && forall i | 0 <= i < n :: d[i].name == d'[i].name
    ensures Find(d, name, n) == Find(d', name, n)
  {
    if n > 0 {
      FindByNames(d, d', name, n - 1);
    }
  }

  lemma {:induction false} CellsByNames(dict: seq<Word>, name: string, cells: seq<Cell>, body: seq<string>)
    ensures CellsOf(dict + [Word(name, false, Data(cells))], body) == CellsOf(Opened(dict, name), body)
  {
    hide ParseNumber, Find;
    if body != [] {
      FindByNames(dict + [Word(name, false, Data(cells))], Opened(dict, name), body[0], |dict| + 1);
      CellsByNames(dict, name, cells, body[1..]);
    }
  }

  /** The token names the primitive. */
  ghost predicate IsPrim(dict: seq<Word>, token: string, p: Prim, immediate: bool) {
    ParseNumber(token).None? &&
    var w := Find(dict, token, |dict|); w != -1 && dict[w].body == Code(p) && dict[w].immediate == immediate
  }

  /** A definition adds one word, whose cells are those of its body. */
  lemma DefinitionAdds(s: State, name: string, body: seq<string>, rest: seq<string>)
    requires !s.compiling && s.input == [":", name] + (body + ([";"] + rest))
    requires IsPrim(s.dict, ":", Colon, false) && IsPrim(Opened(s.dict, name), ";", Semicolon, true)
    requires forall i | 0 <= i < |body| :: TokenKnown(Opened(s.dict, name), body[i])
    ensures Interpret(s) ==
            Interpret(s.(dict := Defined(s.dict, name, body), current := None, buffer := [], input := rest))
  {
    hide ParseNumber, Find, CellsOf, CellOf, Interpret;
    var tail := body + ([";"] + rest);
    var mid := s.(dict := Opened(s.dict, name), compiling := true, current := Some(|s.dict|), buffer := [],
      input := tail);
    assert s.input[1..] == [name] + tail && ([name] + tail)[1..] == tail;
    assert Step(s) == Ok(mid);
    InterpretStep(s);
    BodyCompiles(body, [";"] + rest, mid);
    var cells := CellsOf(mid.dict, body);
    var full := mid.(buffer := cells, input := [";"] + rest);
    assert [] + cells == cells;
    Closes(s.dict, name, cells, full, rest);
    InterpretStep(full);
  }

  lemma InterpretStep(s: State)
    requires s.input != []
    ensures Interpret(s) == Then(Step(s))
  {
    hide Step;
  }

  /** ";" stores the buffer in the new word. */
  lemma Closes(dict: seq<Word>, name: string, cells: seq<Cell>, full: State, rest: seq<string>)
    requires full.dict == Opened(dict, name) && full.compiling && full.current == Some(|dict|) && full.buffer == cells
    requires full.input == [";"] + rest && IsPrim(full.dict, ";", Semicolon, true)
    ensures Step(full) == Ok(full.(dict := dict + [Word(name, false, Data(cells))], compiling := false, current := None,
                               buffer := [], input := rest))
  {
    hide ParseNumber, Find;
    assert ([";"] + rest)[1..] == rest;
    var w := Find(full.dict, ";", |full.dict|);
    assert full.dict[w].body == Code(Semicolon);
    assert Opened(dict, name)[|dict| := Word(name, false, Data(cells))] == dict + [Word(name, false, Data(cells))];
  }

  /* ---- Running compiled words ---- */

  /** Words that are not found anew mean the same before the later words. */
  lemma {:induction false} AvoidsBefore(words: seq<Word>, more: seq<Word>, w: nat, bad: set<Prim>)
    requires w < |words|
    ensures Avoids(words + more, w, bad) <==> Avoids(words, w, bad)
    decreases w
  {
    assert (words + more)[w] == words[w];
    if words[w].body.Data? {
      var cells := words[w].body.cells;
      forall i | 0 <= i < |cells|
        ensures AvoidsCell(words + more, cells[i], w, bad) <==> AvoidsCell(words, cells[i], w, bad)
      {
        if cells[i].Pointer? && cells[i].w < w {
          AvoidsBefore(words, more, cells[i].w, bad);
        }
      }
    }
  }

  lemma {:induction false} FoundBefore(words: seq<Word>, more: seq<Word>, name: string)
    requires Find(words + more, name, |words + more|) < |words|
    ensures Find(words, name, |words|) == Find(words + more, name, |words + more|)
  {
    hide SameName;
    forall i | 0 <= i < |words| ensures (words + more)[i] == words[i] {
    }
  }

  /** A body whose words were not redefined still has the same cells. */
  lemma {:induction false} CellsKept(words: seq<Word>, more: seq<Word>, body: seq<string>, limit: nat)
    requires limit <= |words| && BodyOk(words + more, body, limit)
    ensures CellsOf(words + more, body) == CellsOf(words, body)
  {
    hide ParseNumber, Find, Avoids;
    if body != [] {
      assert TokenOk(words + more, body[0], limit);
      if ParseNumber(body[0]).None? {
        FoundBefore(words, more, body[0]);
      }
      forall i | 0 <= i < |body[1..]| ensures TokenOk(words + more, body[1..][i], limit) {
        assert body[1..][i] == body[i + 1];
      }
      CellsKept(words, more, body[1..], limit);
    }
  }

  /** Invoking a compiled word does what interpreting its body would do, in any state, before any further input and
      under any later words, as long as neither the word nor those of its body are redefined. */
  lemma CompiledMeansBody(dict: seq<Word>, name: string, body: seq<string>, more: seq<Word>, t: State,
                          rest: seq<string>)
    requires t.dict == Defined(dict, name, body) + more && !t.compiling && t.input == [name] + rest
    requires ParseNumber(name).None? && Find(t.dict, name, |t.dict|) == |dict| && BodyOk(t.dict, body, |dict|)
    ensures Interpret(t) == Interpret(t.(input := body + rest))
  {
    hide ParseNumber, Find, CellsOf, RunCells, BodyOk, Interpret;
    var before := Defined(dict, name, body);
    var cells := CellsOf(Opened(dict, name), body);
    assert ([name] + rest)[1..] == rest;
    InterpretStep(t);
    CellsByNames(dict, name, cells, body);
    CellsKept(before, more, body, |dict|);
    BodyRuns(body, rest, |dict|, t.(input := body + rest));
    assert Step(t) == RunCells(t.dict, cells, |dict|, t.(input := rest));
  }

  /** The cells of a body make a plain word. */
  lemma {:induction false} BodyIsPlain(dict: seq<Word>, body: seq<string>, limit: nat)
    requires BodyOk(dict, body, limit)
    ensures forall i | 0 <= i < |body| :: PlainCell(dict, CellsOf(dict, body)[i], limit)
  {
    hide ParseNumber, Find, Avoids;
    if body != [] {
      assert TokenOk(dict, body[0], limit);
      forall i | 0 <= i < |body[1..]| ensures TokenOk(dict, body[1..][i], limit) {
        assert body[1..][i] == body[i + 1];
      }
      BodyIsPlain(dict, body[1..], limit);
    }
  }

  /** What interpreting the body alone does when it has just been compiled. */
  ghost function Meant(dict: seq<Word>, name: string, body: seq<string>, u: State): Outcome {
    Interpret(u.(dict := Defined(dict, name, body), input := body))
  }

  lemma BodyMakesPlain(d: seq<Word>, body: seq<string>, w: nat)
    requires w < |d| && d[w].body == Data(CellsOf(d, body)) && BodyOk(d, body, w)
    ensures Plain(d, w)
  {
    hide BodyOk, CellsOf, AvoidsCell;
    BodyIsPlain(d, body, w);
    var cells := CellsOf(d, body);
    forall i | 0 <= i < |cells| ensures AvoidsCell(d, cells[i], w, DEFINING) {
      assert PlainCell(d, cells[i], w);
    }
  }

  /** Interpreting a body alone is running the word made of it. */
  lemma BodyIsWord(d: seq<Word>, body: seq<string>, w: nat, u: State)
    requires w < |d| && d[w].body == Data(CellsOf(d, body)) && BodyOk(d, body, w)
    requires u.dict == d && u.input == [] && !u.compiling
    ensures Interpret(u.(input := body)) == RunWord(d, w, u)
  {
    hide BodyOk, CellsOf, RunCells, Plain, Step;
    BodyMakesPlain(d, body, w);
    assert body + [] == body;
    BodyRuns(body, [], w, u.(input := body));
    PlainWord(d, w, u, []);
  }

  /** The word just defined. */
  lemma DefinedWord(dict: seq<Word>, name: string, body: seq<string>)
    ensures var d := Defined(dict, name, body); |d| == |dict| + 1 && d[|dict|].body == Data(CellsOf(d, body))
  {
    hide CellsOf;
    CellsByNames(dict, name, CellsOf(Opened(dict, name), body), body);
  }

  /** Whatever is defined or redefined later, running the compiled word leaves the stack its body meant, and changes
      nothing else but the output, which is also what the body meant exactly if the word does not list the dictionary
      or nothing has been defined since. */
  lemma MeaningKept(dict: seq<Word>, name: string, body: seq<string>, more: seq<Word>, u: State)
    requires u.dict == Defined(dict, name, body) + more && !u.compiling
    requires BodyOk(Defined(dict, name, body), body, |dict|)
    ensures var run, meant := RunWord(u.dict, |dict|, u), Meant(dict, name, body, u);
            && SameStack(run, meant) && Quiet(run, u)
            && (run.Ok? ==> (run.s.out == meant.s.out <==> more == [] || Silent(u.dict, |dict|)))
  {
    hide ParseNumber, CellsOf, RunWord, BodyOk, Interpret, Avoids, Find;
    var before := Defined(dict, name, body);
    var t := u.(dict := before, input := []);
    DefinedWord(dict, name, body);
    BodyMakesPlain(before, body, |dict|);
    BodyIsWord(before, body, |dict|, t);
    LaterWords(before, more, |dict|, u);
    PlainWord(before, |dict|, u, u.input);
    StackWord(before, |dict|, t, u);
    AvoidsBefore(before, more, |dict|, DEFINING + {Words});
    if Silent(before, |dict|) {
      SilentWord(before, |dict|, u, before, []);
    }
    if more == [] {
      assert before + [] == before;
      PlainWord(before, |dict|, u, []);
    }
  }

  /** So does invoking it by its name, while that still finds it, even if words of its body have been redefined. */
  lemma CalledLater(dict: seq<Word>, name: string, body: seq<string>, more: seq<Word>, t: State, rest: seq<string>)
    requires t.dict == Defined(dict, name, body) + more && !t.compiling && t.input == [name] + rest
    requires ParseNumber(name).None? && Find(t.dict, name, |t.dict|) == |dict|
    requires BodyOk(Defined(dict, name, body), body, |dict|)
    ensures var run, meant := RunWord(t.dict, |dict|, t.(input := rest)), Meant(dict, name, body, t);
            && Interpret(t) == Then(run) && SameStack(run, meant) && Quiet(run, t.(input := rest))
            && (run.Ok? ==> (run.s.out == meant.s.out <==> more == [] || Silent(t.dict, |dict|)))
  {
    hide ParseNumber, Find, Defined, RunWord, BodyOk, Interpret, Avoids;
    assert ([name] + rest)[1..] == rest;
    InterpretStep(t);
    MeaningKept(dict, name, body, more, t.(input := rest));
  }

  /** After ": W WORDS ;" and ": X 1 ;", W prints X too. */
  lemma ListingSeesLaterWords(u: State)
    requires !u.compiling
    requires u.dict ==
             Defined([Word("WORDS", false, Code(Words))], "W", ["WORDS"]) + [Word("X", false, Data([Tagged(3)]))]
    ensures var run, meant := RunWord(u.dict, 1, u), Meant([Word("WORDS", false, Code(Words))], "W", ["WORDS"], u);
            run.Ok? && meant.Ok? && run.s.out != meant.s.out
  {
    var dict := [Word("WORDS", false, Code(Words))];
    var before := Defined(dict, "W", ["WORDS"]);
    assert DigitsValue("WORDS") == None;
    DefinedWord(dict, "W", ["WORDS"]);
    assert Find(before, "WORDS", 2) == 0;
    assert CellsOf(before, ["WORDS"]) == [Pointer(0)];
    var cells := [Pointer(0)];
    assert u.dict[1].body == Data(cells) && u.dict[0].body == Code(Words);
    assert !AvoidsCell(u.dict, cells[0], 1, DEFINING + {Words});
    assert RunCells(u.dict, cells, 1, u) == RunCell(u.dict, cells[0], 1, u);
    MeaningKept(dict, "W", ["WORDS"], [Word("X", false, Data([Tagged(3)]))], u);
  }
}
