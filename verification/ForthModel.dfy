/** The Forth interpreter as functions on its state: tokens, dictionary, stack and output. */
module ForthModel {
  import opened Bits
  import opened BitOps

  const STACK_SIZE := 256

  datatype Option<T> = None | Some(value: T)

  datatype Prim =
    | Plus | Minus | Times | Divide | Modulo | Dup | Drop | Swap | Over | Rot | Emit | Cr | Dot | DotS
    | Equal | Less | Greater | BitAnd | BitOr | BitNot | Colon | Semicolon | Words

  /** A compiled cell: an odd machine word for a number, or the address of a word. */
  datatype Cell = Tagged(v: uint32) | Pointer(w: nat)

  datatype Body = Code(p: Prim) | Data(cells: seq<Cell>)

  /** Words are known by their place in the dictionary, the oldest first. */
  datatype Word = Word(name: string, immediate: bool, body: Body)

  datatype Event = Char(c: byte) | Number(n: int32) | Text(s: string)

  datatype State = State(stack: seq<int32>, dict: seq<Word>, compiling: bool, current: Option<nat>,
                         buffer: seq<Cell>, input: seq<string>, out: seq<Event>)

  /** A message and an endless loop on overflow or underflow; otherwise undefined behaviour. */
  datatype Outcome = Ok(s: State) | Halt | Undefined

  /* ---- Numbers ---- */

  function Wrap(n: int): int32 {
    (n + 0x8000_0000) % 0x1_0000_0000 - 0x8000_0000
  }

  function Unsigned(n: int32): uint32 {
    n as int % 0x1_0000_0000
  }

  /** (num << 1) | 1 */
  function Tag(n: int): uint32 {
    2 * n % 0x1_0000_0000 + 1
  }

  /** The tagged word as a signed number, shifted right. */
  function Untag(v: uint32): int32 {
    var signed: int := if v < 0x8000_0000 then v as int else v as int - 0x1_0000_0000;
    signed / 2
  }

  /** A compiled number is the interpreted one exactly between -2^30 and 2^30 - 1. */
  lemma UntagTag(n: int)
    ensures Tag(n) % 2 == 1
    ensures Untag(Tag(n)) == Wrap(n) <==> -0x4000_0000 <= Wrap(n) < 0x4000_0000
  {
    var q, r := n / 0x8000_0000, n % 0x8000_0000;
    assert n == 0x8000_0000 * q + r;
    DivUnique(2 * n, 0x1_0000_0000, q, 2 * r);
    if q % 2 == 0 {
      DivUnique(n + 0x8000_0000, 0x1_0000_0000, q / 2, r + 0x8000_0000);
      assert Wrap(n) == r;
    } else {
      DivUnique(n + 0x8000_0000, 0x1_0000_0000, (q + 1) / 2, r);
      assert Wrap(n) == r - 0x8000_0000;
    }
  }

  function IsDigit(c: char): bool {
    '0' <= c <= '9'
  }

  function DigitValue(c: char): nat
    requires IsDigit(c)
  {
    c as int - '0' as int
  }

  /** The value of a string of digits. */
  function DigitsValue(s: string): Option<nat> {
    if s == "" then Some(0)
    else
      var rest, c := DigitsValue(s[..|s| - 1]), s[|s| - 1];
      if rest.Some? && IsDigit(c) then Some(10 * rest.value + DigitValue(c)) else None
  }

  /** my_strtol up to the end of the word: a sign, or none, and at least one digit. */
  function ParseNumber(s: string): Option<int> {
    var digits := if s != "" && (s[0] == '-' || s[0] == '+') then s[1..] else s;
    if digits == "" then None
    else
      match DigitsValue(digits)
      case None => None
      case Some(v) => Some(if s[0] == '-' then -(v as int) else v as int)
  }

  /** n in decimal. */
  function Decimal(n: nat): (s: string)
    ensures s != "" && IsDigit(s[0])
  {
    (if n < 10 then "" else Decimal(n / 10)) + [('0' as int + n % 10) as char]
  }

  lemma {:induction false} DigitsOfDecimal(n: nat)
    ensures DigitsValue(Decimal(n)) == Some(n)
  {
    var s, c := Decimal(n), ('0' as int + n % 10) as char;
    var front := s[..|s| - 1];
    assert s[|s| - 1] == c && DigitValue(c) == n % 10;
    if n < 10 {
      assert front == "";
    } else {
      DigitsOfDecimal(n / 10);
      assert front == Decimal(n / 10);
    }
  }

  /** A number in decimal, with or without a sign, is read back. */
  lemma ParseDecimal(n: nat)
    ensures ParseNumber(Decimal(n)) == Some(n) && ParseNumber("+" + Decimal(n)) == Some(n)
    ensures ParseNumber("-" + Decimal(n)) == Some(-(n as int))
  {
    hide DigitsValue;
    var s := Decimal(n);
    DigitsOfDecimal(n);
    assert ("+" + s)[1..] == s && ("-" + s)[1..] == s;
  }

  /* ---- Primitive words ---- */

  function TruncDiv(a: int, b: int): int
    requires b != 0
  {
    if a >= 0 then (if b > 0 then a / b else -(a / -b)) else (if b > 0 then -(-a / b) else -a / -b)
  }

  /** The result of a two-operand word; division by zero and the overflowing quotient are undefined. */
  function Binary(p: Prim, a: int32, b: int32): Option<int32> {
    match p
    case Plus => Some(Wrap(a as int + b))
    case Minus => Some(Wrap(a as int - b))
    case Times => Some(Wrap(a as int * b))
    case Divide => if b == 0 || (a == -0x8000_0000 && b == -1) then None else Some(Wrap(TruncDiv(a, b)))
    case Modulo =>
      if b == 0 || (a == -0x8000_0000 && b == -1) then None else Some(Wrap(a as int - b * TruncDiv(a, b)))
    case Equal => Some(if a == b then -1 else 0)
    case Less => Some(if a < b then -1 else 0)
    case Greater => Some(if a > b then -1 else 0)
    case BitAnd => Some(Wrap(And(Unsigned(a), Unsigned(b), 32)))
    case BitOr => Some(Wrap(Or(Unsigned(a), Unsigned(b), 32)))
    case _ => None
  }

  predicate IsBinary(p: Prim) {
    p in {Plus, Minus, Times, Divide, Modulo, Equal, Less, Greater, BitAnd, BitOr}
  }

  function Push(s: State, v: int32): Outcome {
    if |s.stack| >= STACK_SIZE then Halt else Ok(s.(stack := s.stack + [v]))
  }

  /** .S */
  function Listing(stack: seq<int32>): seq<Event> {
    if stack == [] then [] else Listing(stack[..|stack| - 1]) + [Number(stack[|stack| - 1]), Char(32)]
  }

  /** WORDS, the newest first. */
  function Names(dict: seq<Word>): seq<Event> {
    if dict == [] then []
    else [Text("  "), Text(dict[|dict| - 1].name), Text("\n")] + Names(dict[..|dict| - 1])
  }

  function EndCompile(s: State): State {
    var dict' := if s.current.Some? && s.current.value < |s.dict|
      then s.dict[s.current.value := s.dict[s.current.value].(body := Data(s.buffer))] else s.dict;
    s.(dict := dict', compiling := false, current := None, buffer := [])
  }

  function RunPrim(p: Prim, s: State): (r: Outcome)
    ensures r.Ok? ==> |r.s.input| <= |s.input|
  {
    var n := |s.stack|;
    if IsBinary(p) then
      if n < 2 then Halt
      else
        match Binary(p, s.stack[n - 2], s.stack[n - 1])
        case None => Undefined
        case Some(v) => Ok(s.(stack := s.stack[..n - 2] + [v]))
    else
      match p
      case Dup => if n == 0 then Undefined else Push(s, s.stack[n - 1])
      case Drop => if n == 0 then Halt else Ok(s.(stack := s.stack[..n - 1]))
      case Swap => if n < 2 then Halt else Ok(s.(stack := s.stack[..n - 2] + [s.stack[n - 1], s.stack[n - 2]]))
      case Over => if n < 2 then Halt else Push(s, s.stack[n - 2])
      case Rot =>
        if n < 3 then Halt
        else Ok(s.(stack := s.stack[..n - 3] + [s.stack[n - 2], s.stack[n - 1], s.stack[n - 3]]))
      case Emit =>
        if n == 0 then Halt
        else Ok(s.(stack := s.stack[..n - 1], out := s.out + [Char(Unsigned(s.stack[n - 1]) % 256)]))
      case Cr => Ok(s.(out := s.out + [Text("\n")]))
      case Dot =>
        if n == 0 then Halt
        else Ok(s.(stack := s.stack[..n - 1], out := s.out + [Number(s.stack[n - 1]), Char(32)]))
      case DotS =>
        Ok(s.(out := s.out + [Text("<sp="), Number(Wrap(n)), Text("> ")] + Listing(s.stack) + [Text("\n")]))
      case BitNot => if n == 0 then Halt else Ok(s.(stack := s.stack[..n - 1] + [-(s.stack[n - 1] as int) - 1]))
      case Words => Ok(s.(out := s.out + [Text("Dictionary words:\n")] + Names(s.dict)))
      case Colon =>
        if s.input == [] then Ok(s.(out := s.out + [Text("Error: expected word name after ':'\n")]))
        else
          Ok(s.(dict := s.dict + [Word(s.input[0], false, Data([]))], compiling := true, current := Some(|s.dict|),
                buffer := [], input := s.input[1..]))
      case Semicolon =>
        if !s.compiling then Ok(s.(out := s.out + [Text("Error: ';' outside definition\n")])) else Ok(EndCompile(s))
      case _ => Undefined
  }

  /* ---- Words ---- */

  function Lower(c: char): char {
    if 'A' <= c <= 'Z' then (c as int + 32) as char else c
  }

  predicate SameName(a: string, b: string) {
    |a| == |b| && forall i | 0 <= i < |a| :: Lower(a[i]) == Lower(b[i])
  }

  /** The newest of the first n words with this name, or -1. */
  function Find(dict: seq<Word>, name: string, n: nat): (r: int)
    requires n <= |dict|
    ensures -1 <= r < n
    ensures r >= 0 ==> SameName(dict[r].name, name) && forall i | r < i < n :: !SameName(dict[i].name, name)
    ensures r == -1 ==> forall i | 0 <= i < n :: !SameName(dict[i].name, name)
  {
    if n == 0 then -1 else if SameName(dict[n - 1].name, name) then n - 1 else Find(dict, name, n - 1)
  }

  /** Runs a word; a cell that does not point below its own word would recur without end. */
  function RunWord(words: seq<Word>, w: nat, s: State): (r: Outcome)
    requires w < |words|
    ensures r.Ok? ==> |r.s.input| <= |s.input|
    decreases w, 1, 0
  {
    match words[w].body
    case Code(p) => RunPrim(p, s)
    case Data(cells) => RunCells(words, cells, w, s)
  }

  function RunCells(words: seq<Word>, cells: seq<Cell>, limit: nat, s: State): (r: Outcome)
    requires limit <= |words|
    ensures r.Ok? ==> |r.s.input| <= |s.input|
    decreases limit, 0, |cells|
  {
    if cells == [] then Ok(s)
    else
      match RunCell(words, cells[0], limit, s)
      case Ok(s') => RunCells(words, cells[1..], limit, s')
      case Halt => Halt
      case Undefined => Undefined
  }

  function RunCell(words: seq<Word>, cell: Cell, limit: nat, s: State): (r: Outcome)
    requires limit <= |words|
    ensures r.Ok? ==> |r.s.input| <= |s.input|
    decreases limit, 0, 0
  {
    match cell
    case Tagged(v) => Push(s, Untag(v))
    case Pointer(i) => if i < limit then RunWord(words, i, s) else Undefined
  }

  /* ---- The interpreter ---- */

  /** One token of the input. An unknown word ends the definition and the line. */
  function Step(s: State): (r: Outcome)
    requires s.input != []
    ensures r.Ok? ==> |r.s.input| < |s.input|
  {
    var token, s1 := s.input[0], s.(input := s.input[1..]);
    match ParseNumber(token)
    case Some(n) =>
      if s.compiling then Ok(s1.(buffer := s.buffer + [Tagged(Tag(n))])) else Push(s1, Wrap(n))
    case None =>
      var w := Find(s.dict, token, |s.dict|);
      if w == -1 then
        var s2 := s1.(out := s.out + [Text("Unknown word: "), Text(token), Text("\n")], input := []);
        Ok(if s.compiling then EndCompile(s2) else s2)
      else if s.compiling && !s.dict[w].immediate then Ok(s1.(buffer := s.buffer + [Pointer(w)]))
      else RunWord(s.dict, w, s1)
  }

  /** A line of tokens. */
  function Interpret(s: State): Outcome
    decreases |s.input|
  {
    if s.input == [] then Ok(s)
    else
      match Step(s)
      case Ok(s') => Interpret(s')
      case Halt => Halt
      case Undefined => Undefined
  }

  function Then(o: Outcome): Outcome {
    match o
    case Ok(s) => Interpret(s)
    case Halt => Halt
    case Undefined => Undefined
  }
}
