/** The header of a gzip member: where it ends, and the fields it may hold. */
module GzipHeader {
  import opened Bits
  import opened InflateStored

  function Le16(v: nat): seq<byte>
    requires v < 65536
  {
    [v % 256, v / 256]
  }

  /** First position from pos on that holds a zero byte, or the end. */
  function NameEnd(z: seq<byte>, pos: nat): (e: nat)
    requires pos <= |z|
    ensures pos <= e <= |z|
    decreases |z| - pos
  {
    if pos == |z| || z[pos] == 0 then pos else NameEnd(z, pos + 1)
  }

  /** Positions after the optional fields; -1 when they run past the end. */
  function AfterExtra(z: seq<byte>, flg: byte, pos: nat): (r: int)
    requires pos <= |z|
    ensures r == -1 || pos <= r <= |z|
  {
    if BitOf(flg, 2) == 0 then pos
    else if |z| < pos + 2 then -1
    else
      var next := pos + 2 + Word16(z[pos], z[pos + 1]);
      if |z| < next then -1 else next
  }

  function AfterName(z: seq<byte>, present: bit, pos: int): (r: int)
    requires -1 <= pos <= |z|
    ensures r == -1 || pos <= r <= |z|
  {
    if pos == -1 || present == 0 then pos
    else if NameEnd(z, pos) + 1 > |z| then -1
    else NameEnd(z, pos) + 1
  }

  function AfterHeaderCrc(z: seq<byte>, flg: byte, pos: int): (r: int)
    requires -1 <= pos <= |z|
    ensures r == -1 || pos <= r <= |z|
  {
    if pos == -1 || BitOf(flg, 1) == 0 then pos
    else if |z| < pos + 2 then -1
    else pos + 2
  }

  /** Where the deflate data begins, or -1 for a malformed header. */
  function HeaderEnd(z: seq<byte>): (r: int)
    ensures r == -1 || 10 <= r <= |z| - 8
  {
    if |z| < 20 || z[0] != 0x1F || z[1] != 0x8B || z[2] != 8 then -1
    else
      var flg := z[3];
      var p1 := AfterExtra(z, flg, 10);
      var p2 := AfterName(z, BitOf(flg, 3), p1);
      var p3 := AfterName(z, BitOf(flg, 4), p2);
      var p4 := AfterHeaderCrc(z, flg, p3);
      if p4 == -1 || |z| < p4 + 8 then -1 else p4
  }

  /* ---- Optional fields ---- */

  datatype Field = Absent | Present(bytes: seq<byte>)

  /** A header of section 2.3 of RFC 1952: the flags, the six bytes that are not looked at, and the optional fields. */
  datatype Member = Member(flags: byte, rest: seq<byte>, extra: Field, name: Field, comment: Field, check: Field)

  predicate NoZero(f: Field) {
    f.Present? ==> forall i | 0 <= i < |f.bytes| :: f.bytes[i] != 0
  }

  /** The flags say which fields there are, strings hold no zero byte, and lengths fit. */
  predicate MemberOk(h: Member) {
    && |h.rest| == 6 && (h.extra.Present? <==> BitOf(h.flags, 2) == 1) && (h.name.Present? <==> BitOf(h.flags, 3) == 1)
    && (h.comment.Present? <==> BitOf(h.flags, 4) == 1) && (h.check.Present? <==> BitOf(h.flags, 1) == 1)
    && (h.extra.Present? ==> |h.extra.bytes| < 0x1_0000) && NoZero(h.name) && NoZero(h.comment)
    && (h.check.Present? ==> |h.check.bytes| == 2)
  }

  /** A present check counts 2 in the flags, extra data 4, a name 8 and a comment 16. */
  lemma FlagsAre(h: Member)
    requires MemberOk(h)
    ensures h.flags as int / 2 % 16 == (if h.check.Present? then 1 else 0) + (if h.extra.Present? then 2 else 0) +
                                       (if h.name.Present? then 4 else 0) + (if h.comment.Present? then 8 else 0)
  {
    FlagBits(h.flags);
    hide BitOf, NoZero;
  }

  lemma FlagBits(f: byte)
    ensures f as int / 2 % 16 == BitOf(f, 1) + 2 * BitOf(f, 2) + 4 * BitOf(f, 3) + 8 * BitOf(f, 4)
  {
    assert Pow2(1) == 2 && Pow2(2) == 4 && Pow2(3) == 8 && Pow2(4) == 16;
    hide Pow2;
    FlagSum(f);
  }

  lemma FlagSum(f: int)
    requires 0 <= f < 256
    ensures f / 2 % 16 == f / 2 % 2 + 2 * (f / 4 % 2) + 4 * (f / 8 % 2) + 8 * (f / 16 % 2)
  {
    var a, b, c := f / 2, f / 4, f / 8;
    assert b == a / 2 && c == b / 2 && f / 16 == c / 2 && f / 32 == c / 2 / 2;
  }

  function ExtraBytes(f: Field): seq<byte>
    requires f.Present? ==> |f.bytes| < 0x1_0000
  {
    if f.Present? then Le16(|f.bytes|) + f.bytes else []
  }

  function NameBytes(f: Field): seq<byte> {
    if f.Present? then f.bytes + [0] else []
  }

  function CheckBytes(f: Field): seq<byte> {
    if f.Present? then f.bytes else []
  }

  function StartBytes(h: Member): seq<byte> {
    [0x1F, 0x8B, 8, h.flags] + h.rest
  }

  function HeaderBytes(h: Member): seq<byte>
    requires MemberOk(h)
  {
    StartBytes(h) + ExtraBytes(h.extra) + NameBytes(h.name) + NameBytes(h.comment) + CheckBytes(h.check)
  }

  /** The bytes s stand at pos. */
  predicate StandsAt(z: seq<byte>, pos: nat, s: seq<byte>) {
    pos + |s| <= |z| && z[pos..pos + |s|] == s
  }

  lemma ExtraIs(z: seq<byte>, flg: byte, pos: nat, f: Field)
    requires (f.Present? <==> BitOf(flg, 2) == 1) && (f.Present? ==> |f.bytes| < 0x1_0000)
    requires StandsAt(z, pos, ExtraBytes(f))
    ensures AfterExtra(z, flg, pos) == pos + |ExtraBytes(f)|
  {
    hide BitOf;
    if f.Present? {
      var s := ExtraBytes(f);
      assert z[pos] == s[0] == |f.bytes| % 256 && z[pos + 1] == s[1] == |f.bytes| / 256;
    }
  }

  lemma {:induction false} NameEndIs(z: seq<byte>, pos: nat, s: seq<byte>)
    requires (forall i | 0 <= i < |s| :: s[i] != 0) && StandsAt(z, pos, s + [0])
    ensures NameEnd(z, pos) == pos + |s|
    decreases |s|
  {
    assert z[pos] == (s + [0])[0];
    if s != [] {
      var t := s[1..] + [0];
      assert z[pos + 1..pos + 1 + |t|] == (s + [0])[1..] == t;
      NameEndIs(z, pos + 1, s[1..]);
    }
  }

  lemma NameIs(z: seq<byte>, present: bit, pos: nat, f: Field)
    requires (f.Present? <==> present == 1) && NoZero(f) && StandsAt(z, pos, NameBytes(f))
    ensures AfterName(z, present, pos) == pos + |NameBytes(f)|
  {
    hide NameEnd;
    if f.Present? {
      NameEndIs(z, pos, f.bytes);
    }
  }

  lemma CheckIs(z: seq<byte>, flg: byte, pos: nat, f: Field)
    requires (f.Present? <==> BitOf(flg, 1) == 1) && (f.Present? ==> |f.bytes| == 2) && StandsAt(z, pos, CheckBytes(f))
    ensures AfterHeaderCrc(z, flg, pos) == pos + |CheckBytes(f)|
  {
    hide BitOf;
  }

  /** Any header, before at least the ten bytes of the shortest data and trailer, ends where it ends. */
  lemma HeaderEndIs(h: Member, body: seq<byte>)
    requires MemberOk(h) && |body| >= 10
    ensures HeaderEnd(HeaderBytes(h) + body) == |HeaderBytes(h)|
  {
    hide BitOf, NameEnd, AfterExtra, AfterName, AfterHeaderCrc, ExtraBytes, NameBytes, CheckBytes, NoZero, StandsAt;
    var e, n, c, k := ExtraBytes(h.extra), NameBytes(h.name), NameBytes(h.comment), CheckBytes(h.check);
    var p1 := StartBytes(h);
    var p2, p3, p4 := p1 + e, p1 + e + n, p1 + e + n + c;
    var z := p4 + k + body;
    Prefix(p4 + k, body, z);
    PlaceAt(p4, k, z);
    PlaceAt(p3, c, z);
    PlaceAt(p2, n, z);
    PlaceAt(p1, e, z);
    StartIs(h, z);
    ExtraIs(z, h.flags, 10, h.extra);
    NameIs(z, BitOf(h.flags, 3), |p2|, h.name);
    NameIs(z, BitOf(h.flags, 4), |p3|, h.comment);
    CheckIs(z, h.flags, |p4|, h.check);
  }

  lemma Prefix(p: seq<byte>, s: seq<byte>, z: seq<byte>)
    requires z == p + s
    ensures |p| <= |z| && z[..|p|] == p
  {
  }

  lemma PlaceAt(p: seq<byte>, s: seq<byte>, z: seq<byte>)
    requires |p| + |s| <= |z| && z[..|p| + |s|] == p + s
    ensures StandsAt(z, |p|, s) && z[..|p|] == p
  {
    assert z[|p|..|p| + |s|] == z[..|p| + |s|][|p|..];
    assert z[..|p|] == z[..|p| + |s|][..|p|];
  }

  lemma StartIs(h: Member, z: seq<byte>)
    requires |h.rest| == 6 && 10 <= |z| && z[..10] == StartBytes(h)
    ensures z[0] == 0x1F && z[1] == 0x8B && z[2] == 8 && z[3] == h.flags
  {
    var a := z[..10];
    assert a[0] == z[0] && a[1] == z[1] && a[2] == z[2] && a[3] == z[3];
  }

  /** Conversely, a header that was accepted is one of these. */
  lemma HeaderWasParsed(z: seq<byte>) returns (h: Member)
    requires HeaderEnd(z) != -1
    ensures MemberOk(h) && z[..HeaderEnd(z)] == HeaderBytes(h)
  {
    hide BitOf, NameEnd, AfterExtra, ExtraBytes, NameBytes, CheckBytes, NoZero, StandsAt;
    var flg := z[3];
    var extra, q1 := ExtraWas(z, flg, 10);
    var name, q2 := NameWas(z, BitOf(flg, 3), q1);
    var comment, q3 := NameWas(z, BitOf(flg, 4), q2);
    var check, q4 := CheckWas(z, flg, q3);
    h := Member(flg, z[4..10], extra, name, comment, check);
    assert z[..10] == StartBytes(h);
    Extend(z, 10, ExtraBytes(extra));
    Extend(z, q1, NameBytes(name));
    Extend(z, q2, NameBytes(comment));
    Extend(z, q3, CheckBytes(check));
  }

  lemma Extend(z: seq<byte>, pos: nat, s: seq<byte>)
    requires StandsAt(z, pos, s)
    ensures pos + |s| <= |z| && z[..pos + |s|] == z[..pos] + s
  {
  }

  lemma ExtraWas(z: seq<byte>, flg: byte, pos: nat) returns (f: Field, next: nat)
    requires pos <= |z| && AfterExtra(z, flg, pos) != -1
    ensures (f.Present? <==> BitOf(flg, 2) == 1) && (f.Present? ==> |f.bytes| < 0x1_0000)
    ensures next == AfterExtra(z, flg, pos) == pos + |ExtraBytes(f)| && StandsAt(z, pos, ExtraBytes(f))
  {
    hide BitOf;
    next := AfterExtra(z, flg, pos);
    f := Absent;
    if BitOf(flg, 2) == 1 {
      f := Present(z[pos + 2..next]);
      var n := |f.bytes|;
      assert n == z[pos] as int + 256 * (z[pos + 1] as int);
      DivUnique(n, 256, z[pos + 1], z[pos]);
      assert z[pos..next] == z[pos..pos + 2] + f.bytes && z[pos..pos + 2] == Le16(n);
    }
  }

  lemma {:induction false} NoZeroBefore(z: seq<byte>, pos: nat)
    requires pos <= |z|
    ensures forall i | pos <= i < NameEnd(z, pos) :: z[i] != 0
    ensures NameEnd(z, pos) < |z| ==> z[NameEnd(z, pos)] == 0
    decreases |z| - pos
  {
    if pos < |z| && z[pos] != 0 {
      NoZeroBefore(z, pos + 1);
    }
  }

  lemma NameWas(z: seq<byte>, present: bit, pos: nat) returns (f: Field, next: nat)
    requires pos <= |z| && AfterName(z, present, pos) != -1
    ensures (f.Present? <==> present == 1) && NoZero(f)
    ensures next == AfterName(z, present, pos) == pos + |NameBytes(f)| && StandsAt(z, pos, NameBytes(f))
  {
    hide NameEnd;
    next := AfterName(z, present, pos);
    f := Absent;
    if present == 1 {
      NoZeroBefore(z, pos);
      f := Present(z[pos..next - 1]);
      assert z[pos..next] == f.bytes + [0];
    }
  }

  lemma CheckWas(z: seq<byte>, flg: byte, pos: nat) returns (f: Field, next: nat)
    requires pos <= |z| && AfterHeaderCrc(z, flg, pos) != -1
    ensures (f.Present? <==> BitOf(flg, 1) == 1) && (f.Present? ==> |f.bytes| == 2)
    ensures next == AfterHeaderCrc(z, flg, pos) == pos + |CheckBytes(f)| && StandsAt(z, pos, CheckBytes(f))
  {
    hide BitOf;
    next := AfterHeaderCrc(z, flg, pos);
    f := if BitOf(flg, 1) == 1 then Present(z[pos..next]) else Absent;
  }

  /* ---- Parsing in place ---- */

  /** Steps over a zero-terminated field. */
  method SkipName(z: seq<byte>, pos: nat) returns (next: nat)
    requires pos <= |z|
    ensures next == NameEnd(z, pos) + 1
  {
    next := pos;
    while next < |z| && z[next] != 0
      invariant pos <= next <= |z| && NameEnd(z, next) == NameEnd(z, pos)
    {
      next := next + 1;
    }
    next := next + 1;
  }

  /** Where the deflate data begins, or -1 for a malformed header. */
  method ParseHeader(z: seq<byte>) returns (hdrLen: int)
    ensures hdrLen == HeaderEnd(z)
  {
    hide NameEnd, BitOf, Word16;
    if |z| < 20 || z[0] != 0x1F || z[1] != 0x8B || z[2] != 8 {
      return -1;
    }
    var flg := z[3];
    var pos: nat := 10;
    if BitOf(flg, 2) == 1 {
      if |z| < pos + 2 {
        return -1;
      }
      pos := pos + 2 + Word16(z[pos], z[pos + 1]);
      if |z| < pos {
        return -1;
      }
    }
    if BitOf(flg, 3) == 1 {
      pos := SkipName(z, pos);
      if pos > |z| {
        return -1;
      }
    }
    if BitOf(flg, 4) == 1 {
      pos := SkipName(z, pos);
      if pos > |z| {
        return -1;
      }
    }
    if BitOf(flg, 1) == 1 {
      pos := pos + 2;
      if |z| < pos {
        return -1;
      }
    }
    if |z| < pos + 8 {
      return -1;
    }
    hdrLen := pos;
  }
}
