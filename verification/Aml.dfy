/** kernel/acpi.c, aml_extract_s5_types: the search of the DSDT for the package _S5_, whose
    first two elements are the sleep types that power the machine off. The byte forms are
    those of section 20.2 of the ACPI Specification. */
module Aml {
  import opened Words

  datatype Option<T> = None | Some(value: T)

  const HEADER_SIZE: nat := 36
  const NAME_OP: Byte := 0x08
  const PACKAGE_OP: Byte := 0x12
  const BYTE_PREFIX: Byte := 0x0A
  const WORD_PREFIX: Byte := 0x0B
  const ROOT_CHAR: Byte := 0x5C
  const PARENT_CHAR: Byte := 0x5E

  /** The name segment _S5_ */
  function S5(): seq<Byte> { [0x5F, 0x53, 0x35, 0x5F] }

  // ------------------------------------------------------------------- grammar

  /** A package element as the search reads it: any one byte that is not a byte or word
      prefix, taken as its own value, a byte constant or a word constant. */
  datatype Element = Op(op: Byte) | ByteConst(v: Byte) | WordConst(lo: Byte, hi: Byte)

  predicate ElementOk(e: Element) {
    e.Op? ==> e.op != BYTE_PREFIX && e.op != WORD_PREFIX
  }

  function Encode(e: Element): seq<Byte> {
    match e
    case Op(op) => [op]
    case ByteConst(v) => [BYTE_PREFIX, v]
    case WordConst(lo, hi) => [WORD_PREFIX, lo, hi]
  }

  function LowByte(e: Element): Byte {
    match e
    case Op(op) => op
    case ByteConst(v) => v
    case WordConst(lo, _) => lo
  }

  /** NameOp, or NameOp and one root or parent prefix. */
  predicate IsPrefix(p: seq<Byte>) {
    p == [NAME_OP] || p == [NAME_OP, ROOT_CHAR] || p == [NAME_OP, PARENT_CHAR]
  }

  /** A PkgLength: the top two bits of the first byte count the bytes that follow. */
  predicate IsPkgLength(l: seq<Byte>) {
    |l| > 0 && |l| == 1 + Follow(l[0])
  }

  function Follow(lead: Byte): nat {
    var n: nat := lead;
    n / 64
  }

  /** The bytes s stand at position i. */
  predicate HasAt(aml: seq<Byte>, i: nat, s: seq<Byte>) {
    i + |s| <= |aml| && aml[i..i + |s|] == s
  }

  lemma HasBoth(aml: seq<Byte>, i: nat, s: seq<Byte>, t: seq<Byte>)
    ensures HasAt(aml, i, s + t) <==> HasAt(aml, i, s) && HasAt(aml, i + |s|, t)
  {
    if HasAt(aml, i, s + t) {
      assert (s + t)[..|s|] == s && (s + t)[|s|..] == t;
      assert aml[i..i + |s|] == aml[i..i + |s + t|][..|s|] && aml[i + |s|..i + |s| + |t|] == aml[i..i + |s + t|][|s|..];
    }
    if HasAt(aml, i, s) && HasAt(aml, i + |s|, t) {
      assert aml[i..i + |s + t|] == aml[i..i + |s|] + aml[i + |s|..i + |s| + |t|];
    }
  }

  lemma HasOne(aml: seq<Byte>, i: nat, x: Byte)
    ensures HasAt(aml, i, [x]) <==> i < |aml| && aml[i] == x
  {
  }

  /** From the name on: Name(_S5_, Package {a, b, ..}). */
  function Body(len: seq<Byte>, num: Byte, a: Element, b: Element): seq<Byte> {
    S5() + ([PACKAGE_OP] + (len + ([num] + (Encode(a) + Encode(b)))))
  }

  /** The bytes at i are a definition of _S5_ with elements a and b: before them stands a
      prefix, and anything may follow. */
  ghost predicate DefinesAt(aml: seq<Byte>, i: nat, prefix: seq<Byte>, len: seq<Byte>, num: Byte, a: Element,
                            b: Element)
  {
    && IsPrefix(prefix) && IsPkgLength(len) && ElementOk(a) && ElementOk(b)
    && |prefix| <= i && HasAt(aml, i - |prefix|, prefix) && HasAt(aml, i, Body(len, num, a, b))
  }

  // ------------------------------------------------------------------ decoding

  /** The element at pos, and the position after it. */
  function ElementAt(aml: seq<Byte>, pos: nat): Option<(Byte, nat)> {
    if pos >= |aml| then None
    else if aml[pos] == BYTE_PREFIX then if pos + 1 >= |aml| then None else Some((aml[pos + 1], pos + 2))
    else if aml[pos] == WORD_PREFIX then if pos + 2 >= |aml| then None else Some((aml[pos + 1], pos + 3))
    else Some((aml[pos], pos + 1))
  }

  predicate NamedAt(aml: seq<Byte>, i: nat) {
    && i + 7 < |aml| && aml[i..i + 4] == S5() && i > 0
    && (|| aml[i - 1] == NAME_OP
        || (i >= 2 && aml[i - 2] == NAME_OP && (aml[i - 1] == ROOT_CHAR || aml[i - 1] == PARENT_CHAR)))
  }

  /** The two values of the _S5_ definition at i, if there is one that can be decoded. */
  function DecodeAt(aml: seq<Byte>, i: nat): Option<(Byte, Byte)> {
    if !NamedAt(aml, i) || aml[i + 4] != PACKAGE_OP then None
    else
      var first := ElementAt(aml, i + 7 + Follow(aml[i + 5]));
      if first.None? then None
      else
        var second := ElementAt(aml, first.value.1);
        if second.None? then None else Some((first.value.0, second.value.0))
  }

  lemma ElementDecodes(aml: seq<Byte>, pos: nat, e: Element)
    requires ElementOk(e) && HasAt(aml, pos, Encode(e))
    ensures ElementAt(aml, pos) == Some((LowByte(e), pos + |Encode(e)|))
  {
    assert forall k :: 0 <= k < |Encode(e)| ==> Encode(e)[k] == aml[pos + k];
  }

  /** The integer constants of AML. */
  datatype Constant =
    | Zero | One | Ones | InByte(v: Byte) | InWord(w: seq<Byte>) | InDWord(d: seq<Byte>) | InQWord(q: seq<Byte>)

  predicate ConstantOk(c: Constant) {
    match c
    case InWord(w) => |w| == 2
    case InDWord(d) => |d| == 4
    case InQWord(q) => |q| == 8
    case _ => true
  }

  function ConstantBytes(c: Constant): (r: seq<Byte>)
    requires ConstantOk(c)
    ensures |r| > 0
  {
    match c
    case Zero => [0x00]
    case One => [0x01]
    case Ones => [0xFF]
    case InByte(v) => [BYTE_PREFIX, v]
    case InWord(w) => [WORD_PREFIX] + w
    case InDWord(d) => [0x0C] + d
    case InQWord(q) => [0x0E] + q
  }

  /** The low byte of a constant's value; the bytes are stored with the low one first. */
  function ConstantLow(c: Constant): Byte
    requires ConstantOk(c)
  {
    match c
    case Zero => 0
    case One => 1
    case Ones => 0xFF
    case InByte(v) => v
    case InWord(w) => w[0]
    case InDWord(d) => d[0]
    case InQWord(q) => q[0]
  }

  /** A constant is read as its low byte and passed over whole exactly if it takes at most
      two bytes of data; of a longer one only the prefix is read, as if that were all. */
  lemma ConstantReads(aml: seq<Byte>, pos: nat, c: Constant)
    requires ConstantOk(c) && HasAt(aml, pos, ConstantBytes(c))
    ensures ElementAt(aml, pos) == Some((ConstantLow(c), pos + |ConstantBytes(c)|)) <==> !c.InDWord? && !c.InQWord?
    ensures c.InDWord? || c.InQWord? ==>
              var next: nat := pos + 1; ElementAt(aml, pos) == Some((ConstantBytes(c)[0], next))
  {
  }

  lemma ElementIsThere(aml: seq<Byte>, pos: nat) returns (e: Element)
    requires ElementAt(aml, pos).Some?
    ensures ElementOk(e) && HasAt(aml, pos, Encode(e)) && ElementAt(aml, pos) == Some((LowByte(e), pos + |Encode(e)|))
  {
    e := if aml[pos] == BYTE_PREFIX then ByteConst(aml[pos + 1])
         else if aml[pos] == WORD_PREFIX then WordConst(aml[pos + 1], aml[pos + 2]) else Op(aml[pos]);
    assert forall k :: 0 <= k < |Encode(e)| ==> aml[pos..pos + |Encode(e)|][k] == Encode(e)[k];
  }

  /** The parts of a definition, each at its place. */
  lemma BodyParts(aml: seq<Byte>, i: nat, len: seq<Byte>, num: Byte, a: Element, b: Element)
    ensures HasAt(aml, i, Body(len, num, a, b)) <==>
            var p := i + 5 + |len|;
            && HasAt(aml, i, S5()) && HasAt(aml, i + 4, [PACKAGE_OP]) && HasAt(aml, i + 5, len) && HasAt(aml, p, [num])
            && HasAt(aml, p + 1, Encode(a)) && HasAt(aml, p + 1 + |Encode(a)|, Encode(b))
  {
    hide HasAt, Encode;
    var p := i + 5 + |len|;
    HasBoth(aml, i, S5(), [PACKAGE_OP] + (len + ([num] + (Encode(a) + Encode(b)))));
    HasBoth(aml, i + 4, [PACKAGE_OP], len + ([num] + (Encode(a) + Encode(b))));
    HasBoth(aml, i + 5, len, [num] + (Encode(a) + Encode(b)));
    HasBoth(aml, p, [num], Encode(a) + Encode(b));
    HasBoth(aml, p + 1, Encode(a), Encode(b));
  }

  lemma PrefixParts(aml: seq<Byte>, i: nat, prefix: seq<Byte>)
    requires IsPrefix(prefix) && |prefix| <= i && HasAt(aml, i - |prefix|, prefix)
    ensures i <= |aml|
    ensures (|| aml[i - 1] == NAME_OP
             || (i >= 2 && aml[i - 2] == NAME_OP && (aml[i - 1] == ROOT_CHAR || aml[i - 1] == PARENT_CHAR)))
  {
    var j := i - |prefix|;
    assert aml[j..i][0] == aml[j] && (|prefix| == 2 ==> aml[j..i][1] == aml[j + 1]);
  }

  /** A definition of _S5_ decodes to the low bytes of its first two elements, whatever
      its PkgLength, its prefix and the bytes around it. */
  lemma Decodes(aml: seq<Byte>, i: nat, prefix: seq<Byte>, len: seq<Byte>, num: Byte, a: Element, b: Element)
    requires DefinesAt(aml, i, prefix, len, num, a, b)
    ensures DecodeAt(aml, i) == Some((LowByte(a), LowByte(b)))
  {
    hide Body, Encode;
    BodyParts(aml, i, len, num, a, b);
    PrefixParts(aml, i, prefix);
    HasOne(aml, i + 4, PACKAGE_OP);
    FirstOf(aml, i + 5, len);
    ElementDecodes(aml, i + 6 + |len|, a);
    ElementDecodes(aml, i + 6 + |len| + |Encode(a)|, b);
    hide HasAt, ElementAt, IsPrefix;
  }

  lemma FirstOf(aml: seq<Byte>, i: nat, s: seq<Byte>)
    requires HasAt(aml, i, s) && |s| > 0
    ensures i < |aml| && aml[i] == s[0]
  {
  }

  lemma PrefixThere(aml: seq<Byte>, i: nat) returns (prefix: seq<Byte>)
    requires NamedAt(aml, i)
    ensures IsPrefix(prefix) && |prefix| <= i && HasAt(aml, i - |prefix|, prefix)
  {
    prefix := if aml[i - 1] == NAME_OP then [NAME_OP] else [NAME_OP, aml[i - 1]];
  }

  /** Whatever decodes is a definition of _S5_. */
  lemma Defined(aml: seq<Byte>, i: nat) returns (prefix: seq<Byte>, len: seq<Byte>, num: Byte, a: Element, b: Element)
    requires DecodeAt(aml, i).Some?
    ensures DefinesAt(aml, i, prefix, len, num, a, b) && DecodeAt(aml, i) == Some((LowByte(a), LowByte(b)))
  {
    hide Body, Encode, IsPrefix;
    prefix := PrefixThere(aml, i);
    var p := i + 6 + Follow(aml[i + 5]);
    a := ElementIsThere(aml, p + 1);
    b := ElementIsThere(aml, p + 1 + |Encode(a)|);
    assert p < |aml|;
    len, num := aml[i + 5..p], aml[p];
    assert HasAt(aml, i + 5, len) && HasAt(aml, i, S5());
    HasOne(aml, i + 4, PACKAGE_OP);
    HasOne(aml, p, num);
    BodyParts(aml, i, len, num, a, b);
    hide HasAt, ElementAt;
  }

  /** What the search answers: the values at the first position that decodes. */
  ghost predicate FirstAt(aml: seq<Byte>, i: nat, a: Byte, b: Byte) {
    DecodeAt(aml, i) == Some((a, b)) && forall j: nat :: j < i ==> DecodeAt(aml, j).None?
  }

  /** The table's bytes after its header. */
  function AmlOf(dsdt: seq<Byte>): seq<Byte> {
    if |dsdt| < HEADER_SIZE then [] else dsdt[HEADER_SIZE..]
  }

  // -------------------------------------------------------------- the search

  /** The element loop body of aml_extract_s5_types: one element at pos. */
  method ReadElement(aml: seq<Byte>, pos: nat) returns (ok: bool, v: Byte, next: nat)
    ensures ok <==> ElementAt(aml, pos).Some?
    ensures ok ==> ElementAt(aml, pos) == Some((v, next))
  {
    if pos >= |aml| { return false, 0, 0; }
    v, next := aml[pos], pos;
    if v == BYTE_PREFIX {
      if next + 1 >= |aml| { return false, 0, 0; }
      next := next + 1;
      v := aml[next];
    } else if v == WORD_PREFIX {
      if next + 2 >= |aml| { return false, 0, 0; }
      var lo: nat, hi: nat := aml[next + 1], aml[next + 2];
      v := (lo + 256 * hi) % 256;
      next := next + 2;
    }
    next := next + 1;
    ok := true;
  }

  /** The tests that follow a match of the name at i. */
  method TryAt(aml: seq<Byte>, i: nat) returns (ok: bool, a: Byte, b: Byte)
    requires i + 7 < |aml|
    ensures ok <==> DecodeAt(aml, i).Some?
    ensures ok ==> DecodeAt(aml, i) == Some((a, b))
  {
    a, b := 0, 0;
    assert aml[i..i + 4] == [aml[i], aml[i + 1], aml[i + 2], aml[i + 3]];
    if aml[i] != 0x5F || aml[i + 1] != 0x53 || aml[i + 2] != 0x35 || aml[i + 3] != 0x5F { return false, 0, 0; }
    if i == 0 { return false, 0, 0; }
    var pre := aml[i - 1];
    if pre != NAME_OP && !(i >= 2 && aml[i - 2] == NAME_OP && (pre == ROOT_CHAR || pre == PARENT_CHAR)) {
      return false, 0, 0;
    }
    var pos := i + 4;
    if aml[pos] != PACKAGE_OP { return false, 0, 0; }
    pos := pos + 1;
    var lead: nat := aml[pos];
    pos := pos + 1;
    if pos + lead / 64 >= |aml| { return false, 0, 0; }
    pos := pos + lead / 64 + 1;
    ok, a, pos := ReadElement(aml, pos);
    if !ok { return; }
    ok, b, pos := ReadElement(aml, pos);
  }

  /** aml_extract_s5_types: the first definition that can be decoded, if any. Every read
      is inside the table. */
  method ExtractS5(dsdt: seq<Byte>) returns (ok: bool, typA: Byte, typB: Byte)
    ensures ok <==> exists i: nat :: DecodeAt(AmlOf(dsdt), i).Some?
    ensures ok ==> exists i: nat :: FirstAt(AmlOf(dsdt), i, typA, typB)
  {
    typA, typB := 0, 0;
    if |dsdt| < HEADER_SIZE + 8 { return false, 0, 0; }
    var aml := dsdt[HEADER_SIZE..];
    var i := 0;
    while i + 7 < |aml|
      invariant forall j: nat :: j < i ==> DecodeAt(aml, j).None?
    {
      ok, typA, typB := TryAt(aml, i);
      if ok {
        assert FirstAt(AmlOf(dsdt), i, typA, typB) && DecodeAt(AmlOf(dsdt), i).Some?;
        return;
      }
      i := i + 1;
    }
    ok := false;
  }

  /** The answer for a table that holds a definition of _S5_ with no decodable one before
      it: the low bytes of its elements. */
  lemma AnswerIs(dsdt: seq<Byte>, i: nat, prefix: seq<Byte>, len: seq<Byte>, num: Byte, a: Element, b: Element,
                 x: Byte, y: Byte, k: nat)
    requires DefinesAt(AmlOf(dsdt), i, prefix, len, num, a, b)
    requires forall j: nat :: j < i ==> DecodeAt(AmlOf(dsdt), j).None?
    requires FirstAt(AmlOf(dsdt), k, x, y)
    ensures x == LowByte(a) && y == LowByte(b)
  {
    Decodes(AmlOf(dsdt), i, prefix, len, num, a, b);
    assert k == i;
  }
}
