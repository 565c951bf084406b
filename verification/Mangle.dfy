/** Type names as one string: what the string tells apart. */
module Mangle {
  import opened Wrappers
  import opened Directive
  import opened DirectiveProofs

  datatype Builtin =
    | Void | Wchar | Bool | Char | SignedChar | UnsignedChar
    | SignedShort | Short | UnsignedShort | SignedInt | Int | UnsignedInt
    | SignedLong | Long | UnsignedLong | SignedLongLong | LongLong | UnsignedLongLong
    | Signed128 | Unsigned128 | Float | Double | LongDouble | Ellipse

  datatype CType =
    | Basic(builtin: Builtin)
    | Modified(isConst: bool, isVolatile: bool, isRestrict: bool, base: CType)
    | Default
    | String
    | CrayPointer
    | Complex(base: CType)
    | Imaginary(base: CType)
    | Pointer(base: CType)
    | Array(dimensions: seq<int>, base: CType)
    | Function(result: CType, args: seq<CType>)
    | Named(kind: int, name: string)

  function BuiltinLetter(b: Builtin): char {
    match b
    case Void => 'v'
    case Wchar => 'w'
    case Bool => 'b'
    case Char => 'c'
    case SignedChar => 'a'
    case UnsignedChar => 'h'
    case SignedShort => 's'
    case Short => 's'
    case UnsignedShort => 't'
    case SignedInt => 'i'
    case Int => 'i'
    case UnsignedInt => 'j'
    case SignedLong => 'l'
    case Long => 'l'
    case UnsignedLong => 'm'
    case SignedLongLong => 'x'
    case LongLong => 'x'
    case UnsignedLongLong => 'y'
    case Signed128 => 'n'
    case Unsigned128 => 'o'
    case Float => 'f'
    case Double => 'd'
    case LongDouble => 'e'
    case Ellipse => 'z'
  }

  /** Each modifier is put ahead of those before it. */
  function ModifierLetters(isConst: bool, isVolatile: bool, isRestrict: bool): string {
    (if isRestrict then "r" else "") + (if isVolatile then "V" else "") + (if isConst then "K" else "")
  }

  function Mangled(t: CType): string
    decreases t, 0
  {
    match t
    case Basic(b) => [BuiltinLetter(b)]
    case Modified(c, v, r, base) => ModifierLetters(c, v, r) + Mangled(base)
    case Default => "Da"
    case String => "Ac"
    case CrayPointer => "u11craypointer"
    case Complex(base) => "C" + Mangled(base)
    case Imaginary(base) => "G" + Mangled(base)
    case Pointer(base) => "P" + Mangled(base)
    case Array(_, base) => "A" + Mangled(base)
    case Function(result, args) => "F" + Mangled(result) + MangledArgs(args)
    case Named(_, name) => Decimal(|name|) + name
  }

  function MangledArgs(ts: seq<CType>): string
    decreases ts, 1
  {
    if ts == [] then "" else Mangled(ts[0]) + MangledArgs(ts[1..])
  }

  method Modifiers(isConst: bool, isVolatile: bool, isRestrict: bool) returns (mangled: string)
    ensures mangled == ModifierLetters(isConst, isVolatile, isRestrict)
  {
    mangled := "";
    if isConst {
      mangled := "K" + mangled;
    }
    if isVolatile {
      mangled := "V" + mangled;
    }
    if isRestrict {
      mangled := "r" + mangled;
    }
  }

  method GetMangledTypes(t: CType) returns (mangled: string)
    ensures mangled == Mangled(t)
    decreases t, 1
  {
    match t {
      case Basic(b) =>
        mangled := [BuiltinLetter(b)];
      case Modified(c, v, r, base) =>
        mangled := Modifiers(c, v, r);
        var m := GetMangledTypes(base);
        mangled := mangled + m;
      case Default =>
        mangled := "Da";
      case String =>
        mangled := "Ac";
      case CrayPointer =>
        mangled := "u11craypointer";
      case Complex(base) =>
        var m := GetMangledTypes(base);
        mangled := "C" + m;
      case Imaginary(base) =>
        var m := GetMangledTypes(base);
        mangled := "G" + m;
      case Pointer(base) =>
        var m := GetMangledTypes(base);
        mangled := "P" + m;
      case Array(_, base) =>
        var m := GetMangledTypes(base);
        mangled := "A" + m;
      case Function(result, args) =>
        mangled := MangledFunction(result, args);
      case Named(_, name) =>
        mangled := Decimal(|name|) + name;
    }
  }

  /** The result type and then every argument. */
  method MangledFunction(result: CType, args: seq<CType>) returns (mangled: string)
    ensures mangled == "F" + Mangled(result) + MangledArgs(args)
    decreases Function(result, args), 0
  {
    mangled := "F";
    var m := GetMangledTypes(result);
    mangled := mangled + m;
    assert args[0..] == args;
    var i: nat := 0;
    while i < |args|
      invariant i <= |args| && mangled + MangledArgs(args[i..]) == "F" + Mangled(result) + MangledArgs(args)
    {
      assert args[i..][0] == args[i] && args[i..][1..] == args[i + 1..];
      m := GetMangledTypes(args[i]);
      ConcatAssoc(mangled, m, MangledArgs(args[i + 1..]));
      mangled := mangled + m;
      i := i + 1;
    }
    ConcatNothing(mangled);
  }

  /** The letters of builtin types. */
  lemma {:induction false} BuiltinNames(b: Builtin)
    ensures Mangled(Basic(b)) ==
            [match b
             case Void => 'v' case Wchar => 'w' case Bool => 'b' case Ellipse => 'z'
             case Char => 'c' case SignedChar => 'a' case UnsignedChar => 'h'
             case SignedShort => 's' case Short => 's' case UnsignedShort => 't'
             case SignedInt => 'i' case Int => 'i' case UnsignedInt => 'j'
             case SignedLong => 'l' case Long => 'l' case UnsignedLong => 'm'
             case SignedLongLong => 'x' case LongLong => 'x' case UnsignedLongLong => 'y'
             case Signed128 => 'n' case Unsigned128 => 'o'
             case Float => 'f' case Double => 'd' case LongDouble => 'e']
  {
  }

  /** Modifiers come in one order, whatever they modify. */
  lemma {:induction false} ModifierOrder(t: CType, isConst: bool)
    ensures Mangled(Modified(isConst, true, true, t)) == "rV" + Mangled(Modified(isConst, false, false, t))
    ensures Mangled(Modified(isConst, true, false, t)) == "V" + Mangled(Modified(isConst, false, false, t))
    ensures Mangled(Modified(isConst, false, true, t)) == "r" + Mangled(Modified(isConst, false, false, t))
    ensures Mangled(Modified(isConst, false, false, t)) == (if isConst then "K" else "") + Mangled(t)
  {
    var k := if isConst then "K" else "";
    assert ModifierLetters(isConst, false, false) == "" + "" + k == k;
    assert ModifierLetters(isConst, false, true) == "r" + "" + k == "r" + k;
    assert ModifierLetters(isConst, true, false) == "" + "V" + k == "V" + k;
    assert ModifierLetters(isConst, true, true) == "r" + "V" + k == "rV" + k;
    ConcatAssoc("r", k, Mangled(t));
    ConcatAssoc("V", k, Mangled(t));
    ConcatAssoc("rV", k, Mangled(t));
  }

  /** A procedure of a constant string, a complex array and more arguments. */
  lemma {:induction false} ProcedureName()
    ensures Mangled(Function(Basic(Void), [Pointer(Modified(true, false, false, Basic(Char))),
                                           Array([3], Complex(Basic(Double))), Basic(Ellipse)])) == "FvPKcACdz"
  {
    var a, c := Pointer(Modified(true, false, false, Basic(Char))), Basic(Ellipse);
    var b := Array([3], Complex(Basic(Double)));
    ModifierOrder(Basic(Char), true);
    assert Mangled(a) == "P" + ("K" + "c") && Mangled(b) == "A" + ("C" + "d");
    assert [a, b, c][1..] == [b, c] && [b, c][1..] == [c] && [c][1..] == [];
    assert MangledArgs([c]) == "z" + "";
    assert MangledArgs([b, c]) == "ACd" + "z";
    assert MangledArgs([a, b, c]) == "PKc" + "ACdz";
  }

  /** The length of a name of its own is written ahead of it. */
  lemma {:induction false} NamedName(kind: int)
    ensures Mangled(Pointer(Named(kind, "tree_cells"))) == "P10tree_cells"
  {
    assert |"tree_cells"| == 10 && Decimal(10) == Decimal(1) + ['0'] == "10";
  }

  /** Imaginary types, and those whose name is fixed. */
  lemma {:induction false} FixedNames()
    ensures Mangled(Imaginary(Basic(Float))) == "Gf" && Mangled(String) == "Ac"
    ensures Mangled(Default) == "Da" && Mangled(CrayPointer) == "u11craypointer"
  {
  }

  // ----- what is told apart

  datatype PrefixKind = Restrict | Volatile | Const | ComplexOf | ImaginaryOf | PointerTo | ArrayOf

  /** Types with everything left out that the string does not show: which of two names for a signed
      type is used, dimensions, the kind of a named type, how modifiers are grouped, and that a string
      is not an array of characters. */
  datatype Norm =
    | Prefix(kind: PrefixKind, base: Norm)
    | Base(builtin: Builtin)
    | Auto
    | Cray
    | Name(name: string)
    | Func(result: Norm, args: seq<Norm>)

  function Prefixed(kinds: seq<PrefixKind>, n: Norm): Norm {
    if kinds == [] then n else Prefix(kinds[0], Prefixed(kinds[1..], n))
  }

  function ModifierKinds(isConst: bool, isVolatile: bool, isRestrict: bool): seq<PrefixKind> {
    (if isRestrict then [Restrict] else []) + (if isVolatile then [Volatile] else []) +
    (if isConst then [Const] else [])
  }

  /** The shorter of two names for a signed type. */
  function Shortened(b: Builtin): Builtin {
    match b
    case SignedShort => Short
    case SignedInt => Int
    case SignedLong => Long
    case SignedLongLong => LongLong
    case _ => b
  }

  /** Two names for one type. */
  predicate Synonyms(b: Builtin, c: Builtin) {
    (b, c) in {(SignedShort, Short), (SignedInt, Int), (SignedLong, Long), (SignedLongLong, LongLong),
               (Short, SignedShort), (Int, SignedInt), (Long, SignedLong), (LongLong, SignedLongLong)}
  }

  function NormOf(t: CType): Norm
    decreases t, 0
  {
    match t
    case Basic(b) => Base(Shortened(b))
    case Modified(c, v, r, base) => Prefixed(ModifierKinds(c, v, r), NormOf(base))
    case Default => Auto
    case String => Prefix(ArrayOf, Base(Char))
    case CrayPointer => Cray
    case Complex(base) => Prefix(ComplexOf, NormOf(base))
    case Imaginary(base) => Prefix(ImaginaryOf, NormOf(base))
    case Pointer(base) => Prefix(PointerTo, NormOf(base))
    case Array(_, base) => Prefix(ArrayOf, NormOf(base))
    case Function(result, args) => Func(NormOf(result), NormsOf(args))
    case Named(_, name) => Name(name)
  }

  function NormsOf(ts: seq<CType>): seq<Norm>
    decreases ts, 1
  {
    if ts == [] then [] else [NormOf(ts[0])] + NormsOf(ts[1..])
  }

  function PrefixLetter(k: PrefixKind): char {
    match k
    case Restrict => 'r'
    case Volatile => 'V'
    case Const => 'K'
    case ComplexOf => 'C'
    case ImaginaryOf => 'G'
    case PointerTo => 'P'
    case ArrayOf => 'A'
  }

  function PrefixLetters(kinds: seq<PrefixKind>): string {
    if kinds == [] then "" else [PrefixLetter(kinds[0])] + PrefixLetters(kinds[1..])
  }

  function Spelled(n: Norm): string
    decreases n, 0
  {
    match n
    case Prefix(k, base) => [PrefixLetter(k)] + Spelled(base)
    case Base(b) => [BuiltinLetter(b)]
    case Auto => "Da"
    case Cray => "u11craypointer"
    case Name(name) => Decimal(|name|) + name
    case Func(result, args) => "F" + Spelled(result) + SpelledArgs(args)
  }

  function SpelledArgs(ns: seq<Norm>): string
    decreases ns, 1
  {
    if ns == [] then "" else Spelled(ns[0]) + SpelledArgs(ns[1..])
  }

  lemma {:induction false} PrefixedSpelled(kinds: seq<PrefixKind>, n: Norm)
    ensures Spelled(Prefixed(kinds, n)) == PrefixLetters(kinds) + Spelled(n)
  {
    if kinds == [] {
      ConcatNothing(Spelled(n));
    } else {
      PrefixedSpelled(kinds[1..], n);
      ConcatAssoc([PrefixLetter(kinds[0])], PrefixLetters(kinds[1..]), Spelled(n));
    }
  }

  lemma {:induction false} ModifiersSpelled(isConst: bool, isVolatile: bool, isRestrict: bool)
    ensures PrefixLetters(ModifierKinds(isConst, isVolatile, isRestrict)) ==
            ModifierLetters(isConst, isVolatile, isRestrict)
  {
    var r, v := if isRestrict then [Restrict] else [], if isVolatile then [Volatile] else [];
    var c := if isConst then [Const] else [];
    PrefixLettersConcat(r, v);
    PrefixLettersConcat(r + v, c);
    assert forall k :: PrefixLetters([k]) == [PrefixLetter(k)] + PrefixLetters([k][1..]) == [PrefixLetter(k)] + "";
  }

  lemma {:induction false} PrefixLettersConcat(a: seq<PrefixKind>, b: seq<PrefixKind>)
    ensures PrefixLetters(a + b) == PrefixLetters(a) + PrefixLetters(b)
  {
    if a == [] {
      assert a + b == b;
      ConcatNothing(PrefixLetters(b));
    } else {
      assert (a + b)[0] == a[0] && (a + b)[1..] == a[1..] + b;
      PrefixLettersConcat(a[1..], b);
      ConcatAssoc([PrefixLetter(a[0])], PrefixLetters(a[1..]), PrefixLetters(b));
    }
  }

  /** The string depends on nothing else. */
  lemma {:induction false} MangledNorm(t: CType)
    ensures Mangled(t) == Spelled(NormOf(t))
    decreases t, 0
  {
    match t
    case Modified(c, v, r, base) =>
      MangledNorm(base);
      PrefixedSpelled(ModifierKinds(c, v, r), NormOf(base));
      ModifiersSpelled(c, v, r);
    case Complex(base) => MangledNorm(base);
    case Imaginary(base) => MangledNorm(base);
    case Pointer(base) => MangledNorm(base);
    case Array(_, base) => MangledNorm(base);
    case Function(result, args) =>
      MangledNorm(result);
      MangledArgsNorm(args);
    case String => assert Spelled(Prefix(ArrayOf, Base(Char))) == ['A'] + ['c'];
    case Basic(b) => ShortenedLetter(b);
    case _ =>
  }

  lemma {:induction false} MangledArgsNorm(ts: seq<CType>)
    ensures MangledArgs(ts) == SpelledArgs(NormsOf(ts))
    decreases ts, 1
  {
    if ts != [] {
      MangledNorm(ts[0]);
      MangledArgsNorm(ts[1..]);
      assert NormsOf(ts)[1..] == NormsOf(ts[1..]);
    }
  }

  /** Builtin types share a name exactly if they are two names for one type. */
  lemma {:induction false} BuiltinsTold(b: Builtin, c: Builtin)
    ensures Mangled(Basic(b)) == Mangled(Basic(c)) <==> b == c || Synonyms(b, c)
    ensures NormOf(Basic(b)) == NormOf(Basic(c)) <==> b == c || Synonyms(b, c)
  {
    var m, m' := Mangled(Basic(b)), Mangled(Basic(c));
    assert m[0] == BuiltinLetter(b) && m'[0] == BuiltinLetter(c);
    ShortenedLetter(b);
    ShortenedLetter(c);
  }

  // ----- reading the string back

  function PrefixOf(c: char): Option<PrefixKind> {
    match c
    case 'r' => Some(Restrict)
    case 'V' => Some(Volatile)
    case 'K' => Some(Const)
    case 'C' => Some(ComplexOf)
    case 'G' => Some(ImaginaryOf)
    case 'P' => Some(PointerTo)
    case 'A' => Some(ArrayOf)
    case _ => None
  }

  function BuiltinOf(c: char): Option<Builtin> {
    match c
    case 'v' => Some(Void)
    case 'w' => Some(Wchar)
    case 'b' => Some(Bool)
    case 'c' => Some(Char)
    case 'a' => Some(SignedChar)
    case 'h' => Some(UnsignedChar)
    case 's' => Some(Short)
    case 't' => Some(UnsignedShort)
    case 'i' => Some(Int)
    case 'j' => Some(UnsignedInt)
    case 'l' => Some(Long)
    case 'm' => Some(UnsignedLong)
    case 'x' => Some(LongLong)
    case 'y' => Some(UnsignedLongLong)
    case 'n' => Some(Signed128)
    case 'o' => Some(Unsigned128)
    case 'f' => Some(Float)
    case 'd' => Some(Double)
    case 'e' => Some(LongDouble)
    case 'z' => Some(Ellipse)
    case _ => None
  }

  function Number(s: string): nat {
    if s == "" then 0
    else 10 * Number(s[..|s| - 1]) + (if IsDigit(s[|s| - 1]) then s[|s| - 1] as int - '0' as int else 0)
  }

  datatype Read = NotRead | Read(norm: Norm, rest: string)

  function ReadType(s: string): Read
    decreases |s|
  {
    if s == "" then NotRead
    else if PrefixOf(s[0]).Some? then
      match ReadType(s[1..])
      case NotRead => NotRead
      case Read(n, rest) => Read(Prefix(PrefixOf(s[0]).value, n), rest)
    else if BuiltinOf(s[0]).Some? then Read(Base(BuiltinOf(s[0]).value), s[1..])
    else if "Da" <= s then Read(Auto, s[2..])
    else if "u11craypointer" <= s then Read(Cray, s[14..])
    else if IsDigit(s[0]) then
      var k := DigitsLen(s);
      var n := Number(s[..k]);
      if k + n <= |s| then Read(Name(s[k..k + n]), s[k + n..]) else NotRead
    else NotRead
  }

  predicate Identifier(name: string) {
    name != "" && !IsDigit(name[0])
  }

  /** A normal form without function types, its names being identifiers. */
  predicate Plain(n: Norm) {
    match n
    case Prefix(_, base) => Plain(base)
    case Base(b) => Shortened(b) == b
    case Auto => true
    case Cray => true
    case Name(name) => Identifier(name)
    case Func(_, _) => false
  }

  lemma {:induction false} DecimalNumber(n: nat)
    ensures Number(Decimal(n)) == n
  {
    var d := Decimal(n);
    var c := ('0' as int + n % 10) as char;
    if n < 10 {
      assert d == [c] && d[..0] == "" && Number("") == 0;
    } else {
      DecimalNumber(n / 10);
      assert d[..|d| - 1] == Decimal(n / 10);
    }
  }

  lemma {:induction false} AllDigitsLen(d: string)
    requires AllDigits(d)
    ensures DigitsLen(d) == |d|
    decreases |d|
  {
    if d != "" {
      AllDigitsLen(d[1..]);
    }
  }

  lemma {:induction false} ThreeParts(a: string, b: string, c: string)
    ensures var s := a + b + c; s == a + (b + c) && s[..|a|] == a && s[|a|..|a| + |b|] == b && s[|a| + |b|..] == c
  {
    ConcatAssoc(a, b, c);
  }

  lemma {:induction false} ReadName(name: string, rest: string)
    requires Identifier(name)
    ensures ReadType(Decimal(|name|) + name + rest) == Read(Name(name), rest)
  {
    var d := Decimal(|name|);
    DecimalDigits(|name|);
    DecimalNumber(|name|);
    NameRead(d, name, rest);
  }

  lemma {:induction false} NameRead(d: string, name: string, rest: string)
    requires Identifier(name) && d != "" && AllDigits(d) && Number(d) == |name|
    ensures ReadType(d + name + rest) == Read(Name(name), rest)
  {
    var s := d + name + rest;
    ThreeParts(d, name, rest);
    AllDigitsLen(d);
    assert (name + rest)[0] == name[0];
    DigitsRun(d, name + rest);
    assert DigitsLen(s) == |d|;
    assert s[0] == d[0] && IsDigit(s[0]);
    assert PrefixOf(s[0]).None? && BuiltinOf(s[0]).None? && s[0] != 'D' && s[0] != 'u';
  }

  lemma {:induction false} ReadPrefix(k: PrefixKind, s: string)
    ensures ReadType([PrefixLetter(k)] + s) ==
            match ReadType(s) case NotRead => NotRead case Read(n, rest) => Read(Prefix(k, n), rest)
  {
    var t := [PrefixLetter(k)] + s;
    assert PrefixOf(t[0]) == Some(k) && t[1..] == s;
  }

  lemma {:induction false} ShortenedLetter(b: Builtin)
    ensures BuiltinLetter(Shortened(b)) == BuiltinLetter(b) && BuiltinOf(BuiltinLetter(b)) == Some(Shortened(b))
    ensures PrefixOf(BuiltinLetter(b)).None? && BuiltinLetter(b) != 'F' && Shortened(Shortened(b)) == Shortened(b)
  {
  }

  lemma {:induction false} ReadBase(b: Builtin, rest: string)
    requires Shortened(b) == b
    ensures ReadType([BuiltinLetter(b)] + rest) == Read(Base(b), rest)
  {
    var s := [BuiltinLetter(b)] + rest;
    ShortenedLetter(b);
    assert s[0] == BuiltinLetter(b) && s[1..] == rest;
  }

  lemma {:induction false} ReadAuto(rest: string)
    ensures ReadType("Da" + rest) == Read(Auto, rest)
  {
    var s := "Da" + rest;
    assert s[0] == 'D' && s[2..] == rest && "Da" <= s;
  }

  lemma {:induction false} ReadCray(rest: string)
    ensures ReadType("u11craypointer" + rest) == Read(Cray, rest)
  {
    var s := "u11craypointer" + rest;
    assert s[0] == 'u' && s[14..] == rest && "u11craypointer" <= s;
  }

  /** A function-free type is read back from the front of any text it starts. */
  lemma {:induction false} ReadSpelled(n: Norm, rest: string)
    requires Plain(n)
    ensures ReadType(Spelled(n) + rest) == Read(n, rest)
  {
    match n
    case Prefix(k, base) =>
      ReadSpelled(base, rest);
      ReadPrefix(k, Spelled(base) + rest);
      ConcatAssoc([PrefixLetter(k)], Spelled(base), rest);
    case Base(b) => ReadBase(b, rest);
    case Auto => ReadAuto(rest);
    case Cray => ReadCray(rest);
    case Name(name) => ReadName(name, rest);
  }

  predicate FunctionFree(t: CType) {
    match t
    case Modified(_, _, _, base) => FunctionFree(base)
    case Complex(base) => FunctionFree(base)
    case Imaginary(base) => FunctionFree(base)
    case Pointer(base) => FunctionFree(base)
    case Array(_, base) => FunctionFree(base)
    case Function(_, _) => false
    case Named(_, name) => Identifier(name)
    case _ => true
  }

  lemma {:induction false} PlainPrefixed(kinds: seq<PrefixKind>, n: Norm)
    requires Plain(n)
    ensures Plain(Prefixed(kinds, n))
  {
    if kinds != [] {
      PlainPrefixed(kinds[1..], n);
    }
  }

  lemma {:induction false} FunctionFreePlain(t: CType)
    requires FunctionFree(t)
    ensures Plain(NormOf(t))
  {
    match t
    case Modified(c, v, r, base) =>
      FunctionFreePlain(base);
      PlainPrefixed(ModifierKinds(c, v, r), NormOf(base));
    case Complex(base) => FunctionFreePlain(base);
    case Imaginary(base) => FunctionFreePlain(base);
    case Pointer(base) => FunctionFreePlain(base);
    case Array(_, base) => FunctionFreePlain(base);
    case Basic(b) => ShortenedLetter(b);
    case String => assert Plain(Base(Char));
    case _ =>
  }

  /** No mangling of a function-free type starts another one: whatever follows them, equal texts come
      from equal types, and what follows is equal too. */
  lemma {:induction false} PrefixFree(t: CType, t': CType, u: string, u': string)
    requires FunctionFree(t) && FunctionFree(t') && Mangled(t) + u == Mangled(t') + u'
    ensures NormOf(t) == NormOf(t') && u == u'
  {
    FunctionFreePlain(t);
    FunctionFreePlain(t');
    MangledNorm(t);
    MangledNorm(t');
    ReadSpelled(NormOf(t), u);
    ReadSpelled(NormOf(t'), u');
  }

  /** Equal manglings mean equal types, up to what the string leaves out. */
  lemma {:induction false} Faithful(t: CType, t': CType)
    requires FunctionFree(t) && FunctionFree(t')
    ensures Mangled(t) == Mangled(t') <==> NormOf(t) == NormOf(t')
  {
    MangledNorm(t);
    MangledNorm(t');
    ConcatNothing(Mangled(t));
    ConcatNothing(Mangled(t'));
    if Mangled(t) == Mangled(t') {
      PrefixFree(t, t', "", "");
    }
  }

  // ----- function types

  /** A normal form whose names are identifiers, with functions anywhere. */
  predicate Good(n: Norm)
    decreases n, 0
  {
    match n
    case Prefix(_, base) => Good(base)
    case Func(result, args) => Good(result) && AllGood(args)
    case _ => Plain(n)
  }

  predicate AllGood(ns: seq<Norm>)
    decreases ns, 1
  {
    ns == [] || (Good(ns[0]) && AllGood(ns[1..]))
  }

  predicate WellNamed(t: CType)
    decreases t, 0
  {
    match t
    case Modified(_, _, _, base) => WellNamed(base)
    case Complex(base) => WellNamed(base)
    case Imaginary(base) => WellNamed(base)
    case Pointer(base) => WellNamed(base)
    case Array(_, base) => WellNamed(base)
    case Function(result, args) => WellNamed(result) && AllWellNamed(args)
    case Named(_, name) => Identifier(name)
    case _ => true
  }

  predicate AllWellNamed(ts: seq<CType>)
    decreases ts, 1
  {
    ts == [] || (WellNamed(ts[0]) && AllWellNamed(ts[1..]))
  }

  /** Every function inside is without arguments. */
  predicate ArgFree(t: CType) {
    match t
    case Modified(_, _, _, base) => ArgFree(base)
    case Complex(base) => ArgFree(base)
    case Imaginary(base) => ArgFree(base)
    case Pointer(base) => ArgFree(base)
    case Array(_, base) => ArgFree(base)
    case Function(result, args) => args == [] && ArgFree(result)
    case _ => true
  }

  /** Result and arguments of a function: all but the last hold no function, and no function in the
      last one has arguments. */
  predicate Chain(ts: seq<CType>)
    requires ts != []
  {
    if |ts| == 1 then ArgFree(ts[0]) else FunctionFree(ts[0]) && Chain(ts[1..])
  }

  predicate Unambiguous(t: CType) {
    match t
    case Modified(_, _, _, base) => Unambiguous(base)
    case Complex(base) => Unambiguous(base)
    case Imaginary(base) => Unambiguous(base)
    case Pointer(base) => Unambiguous(base)
    case Array(_, base) => Unambiguous(base)
    case Function(result, args) => Chain([result] + args)
    case _ => true
  }

  /** `ArgFree`, `Chain` and `Unambiguous` on normal forms. */
  predicate NoArgs(n: Norm) {
    match n
    case Prefix(_, base) => NoArgs(base)
    case Func(result, args) => args == [] && NoArgs(result)
    case _ => true
  }

  predicate NormChain(ns: seq<Norm>)
    requires ns != []
  {
    if |ns| == 1 then NoArgs(ns[0]) else Plain(ns[0]) && NormChain(ns[1..])
  }

  predicate OneReading(n: Norm) {
    match n
    case Prefix(_, base) => OneReading(base)
    case Func(result, args) => NormChain([result] + args)
    case _ => true
  }

  lemma {:induction false} PrefixedKept(kinds: seq<PrefixKind>, n: Norm)
    ensures Good(n) ==> Good(Prefixed(kinds, n))
    ensures NoArgs(n) ==> NoArgs(Prefixed(kinds, n))
    ensures OneReading(n) ==> OneReading(Prefixed(kinds, n))
  {
    if kinds != [] {
      PrefixedKept(kinds[1..], n);
    }
  }

  lemma {:induction false} PrefixedInjective(kinds: seq<PrefixKind>, n: Norm, n': Norm)
    requires Prefixed(kinds, n) == Prefixed(kinds, n')
    ensures n == n'
  {
    if kinds != [] {
      PrefixedInjective(kinds[1..], n, n');
    }
  }

  lemma {:induction false} WellNamedGood(t: CType)
    requires WellNamed(t)
    ensures Good(NormOf(t))
    decreases t, 0
  {
    match t
    case Modified(c, v, r, base) =>
      WellNamedGood(base);
      PrefixedKept(ModifierKinds(c, v, r), NormOf(base));
    case Complex(base) => WellNamedGood(base);
    case Imaginary(base) => WellNamedGood(base);
    case Pointer(base) => WellNamedGood(base);
    case Array(_, base) => WellNamedGood(base);
    case Function(result, args) =>
      WellNamedGood(result);
      AllWellNamedGood(args);
    case Basic(b) => ShortenedLetter(b);
    case String => assert Good(Base(Char));
    case _ =>
  }

  lemma {:induction false} AllWellNamedGood(ts: seq<CType>)
    requires AllWellNamed(ts)
    ensures AllGood(NormsOf(ts))
    decreases ts, 1
  {
    if ts != [] {
      WellNamedGood(ts[0]);
      AllWellNamedGood(ts[1..]);
      assert NormsOf(ts)[1..] == NormsOf(ts[1..]);
    }
  }

  lemma {:induction false} ArgFreeNorm(t: CType)
    requires ArgFree(t)
    ensures NoArgs(NormOf(t))
  {
    match t
    case Modified(c, v, r, base) =>
      ArgFreeNorm(base);
      PrefixedKept(ModifierKinds(c, v, r), NormOf(base));
    case Complex(base) => ArgFreeNorm(base);
    case Imaginary(base) => ArgFreeNorm(base);
    case Pointer(base) => ArgFreeNorm(base);
    case Array(_, base) => ArgFreeNorm(base);
    case Function(result, args) => ArgFreeNorm(result);
    case String => assert NoArgs(Base(Char));
    case _ =>
  }

  lemma {:induction false} ChainNorm(ts: seq<CType>)
    requires ts != [] && Chain(ts)
    ensures NormsOf(ts) != [] && NormChain(NormsOf(ts))
  {
    assert NormsOf(ts)[1..] == NormsOf(ts[1..]);
    if |ts| == 1 {
      ArgFreeNorm(ts[0]);
      assert NormsOf(ts[1..]) == [];
    } else {
      FunctionFreePlain(ts[0]);
      ChainNorm(ts[1..]);
    }
  }

  lemma {:induction false} UnambiguousNorm(t: CType)
    requires Unambiguous(t)
    ensures OneReading(NormOf(t))
  {
    match t
    case Modified(c, v, r, base) =>
      UnambiguousNorm(base);
      PrefixedKept(ModifierKinds(c, v, r), NormOf(base));
    case Complex(base) => UnambiguousNorm(base);
    case Imaginary(base) => UnambiguousNorm(base);
    case Pointer(base) => UnambiguousNorm(base);
    case Array(_, base) => UnambiguousNorm(base);
    case Function(result, args) =>
      ChainNorm([result] + args);
      assert ([result] + args)[1..] == args;
    case String => assert OneReading(Base(Char));
    case _ =>
  }

  // ----- one reading

  /** Where a function comes first, no function-free type can be read. */
  lemma {:induction false} FunctionNotRead(n: Norm, rest: string)
    requires Good(n) && !Plain(n)
    ensures ReadType(Spelled(n) + rest).NotRead?
  {
    match n
    case Prefix(k, base) =>
      FunctionNotRead(base, rest);
      ReadPrefix(k, Spelled(base) + rest);
      ConcatAssoc([PrefixLetter(k)], Spelled(base), rest);
    case Func(result, args) =>
      assert (Spelled(n) + rest)[0] == 'F';
  }

  /** A function-free type at the front of a text is what any reading starts with. */
  lemma {:induction false} PlainFirst(n: Norm, n': Norm, u: string, u': string)
    requires Plain(n) && Good(n') && Spelled(n) + u == Spelled(n') + u'
    ensures n == n' && u == u'
  {
    ReadSpelled(n, u);
    if Plain(n') {
      ReadSpelled(n', u');
    } else {
      FunctionNotRead(n', u');
    }
  }

  lemma {:induction false} SpelledStart(n: Norm)
    requires Good(n)
    ensures Spelled(n) != ""
    ensures PrefixOf(Spelled(n)[0]) == if n.Prefix? then Some(n.kind) else None
    ensures n.Func? <==> Spelled(n)[0] == 'F'
  {
    match n
    case Name(name) => DecimalDigits(|name|);
    case Base(b) => ShortenedLetter(b);
    case _ =>
  }

  /** A type whose functions have no arguments has no proper front that is a type, and is not read
      in another way. */
  lemma {:induction false} NoArgsRead(n: Norm, n': Norm, u: string)
    requires Good(n) && NoArgs(n) && Good(n') && Spelled(n) == Spelled(n') + u
    ensures n == n' && u == ""
  {
    SpelledStart(n);
    SpelledStart(n');
    assert Spelled(n)[0] == Spelled(n')[0];
    match n
    case Prefix(_, base) =>
      assert Spelled(n)[1..] == Spelled(base) && (Spelled(n') + u)[1..] == Spelled(n'.base) + u;
      NoArgsRead(base, n'.base, u);
    case Func(result, _) =>
      NoArgsFunction(result, n'.result, n'.args, u);
    case _ =>
      ConcatNothing(Spelled(n));
      PlainFirst(n, n', "", u);
  }

  lemma {:induction false} BehindF(result: Norm, args: seq<Norm>, u: string)
    ensures (Spelled(Func(result, args)) + u)[1..] == Spelled(result) + (SpelledArgs(args) + u)
  {
    ConcatAssoc("F", Spelled(result), SpelledArgs(args));
    ConcatAssoc("F", Spelled(result) + SpelledArgs(args), u);
    ConcatAssoc(Spelled(result), SpelledArgs(args), u);
  }

  lemma {:induction false} ArgsSpelled(args: seq<Norm>, u: string)
    requires AllGood(args) && SpelledArgs(args) + u == ""
    ensures args == [] && u == ""
  {
    if args != [] {
      SpelledStart(args[0]);
    }
  }

  lemma {:induction false} NoArgsFunction(result: Norm, result': Norm, args': seq<Norm>, u: string)
    requires Good(result) && NoArgs(result) && Good(result') && AllGood(args')
    requires Spelled(Func(result, [])) == Spelled(Func(result', args')) + u
    ensures result == result' && args' == [] && u == ""
    decreases result
  {
    BehindF(result, [], "");
    BehindF(result', args', u);
    ConcatNothing(Spelled(Func(result, [])));
    ConcatNothing(Spelled(result));
    ConcatNothing("");
    NoArgsRead(result, result', SpelledArgs(args') + u);
    ArgsSpelled(args', u);
  }

  lemma {:induction false} ChainRead(ns: seq<Norm>, ns': seq<Norm>)
    requires ns != [] && ns' != [] && AllGood(ns) && AllGood(ns') && NormChain(ns)
    requires SpelledArgs(ns) == SpelledArgs(ns')
    ensures ns == ns'
  {
    var rest, rest' := SpelledArgs(ns[1..]), SpelledArgs(ns'[1..]);
    if |ns| == 1 {
      assert rest == "";
      ConcatNothing(Spelled(ns[0]));
      NoArgsRead(ns[0], ns'[0], rest');
    } else {
      PlainFirst(ns[0], ns'[0], rest, rest');
      SpelledStart(ns[1]);
    }
    if ns'[1..] != [] {
      SpelledStart(ns'[1]);
    }
    if |ns| > 1 {
      ChainRead(ns[1..], ns'[1..]);
    }
    assert ns == [ns[0]] + ns[1..] && ns' == [ns'[0]] + ns'[1..];
  }

  lemma {:induction false} SpelledFunc(result: Norm, args: seq<Norm>)
    ensures Spelled(Func(result, args)) == "F" + SpelledArgs([result] + args)
  {
    assert ([result] + args)[1..] == args;
    ConcatAssoc("F", Spelled(result), SpelledArgs(args));
  }

  lemma {:induction false} OnlyReading(n: Norm, n': Norm)
    requires Good(n) && Good(n') && OneReading(n) && Spelled(n) == Spelled(n')
    ensures n == n'
  {
    SpelledStart(n);
    SpelledStart(n');
    match n
    case Prefix(_, base) =>
      assert Spelled(n)[1..] == Spelled(base) && Spelled(n')[1..] == Spelled(n'.base);
      OnlyReading(base, n'.base);
    case Func(result, args) =>
      SpelledFunc(result, args);
      SpelledFunc(n'.result, n'.args);
      var ns, ns' := [result] + args, [n'.result] + n'.args;
      assert Spelled(n)[1..] == SpelledArgs(ns) && Spelled(n')[1..] == SpelledArgs(ns');
      assert ns[1..] == args && ns'[1..] == n'.args;
      ChainRead(ns, ns');
      assert ns[0] == ns'[0] && ns[1..] == ns'[1..];
    case _ =>
      ConcatNothing(Spelled(n));
      PlainFirst(n, n', "", "");
  }

  // ----- another reading

  /** One more argument for the outermost function. */
  function AddArg(t: CType, x: CType): CType
    requires WellNamed(t) && !FunctionFree(t)
  {
    match t
    case Modified(c, v, r, base) => Modified(c, v, r, AddArg(base, x))
    case Complex(base) => Complex(AddArg(base, x))
    case Imaginary(base) => Imaginary(AddArg(base, x))
    case Pointer(base) => Pointer(AddArg(base, x))
    case Array(ds, base) => Array(ds, AddArg(base, x))
    case Function(result, args) => Function(result, args + [x])
  }

  lemma {:induction false} MangledSnoc(ts: seq<CType>, x: CType)
    ensures MangledArgs(ts + [x]) == MangledArgs(ts) + Mangled(x)
    ensures AllWellNamed(ts) && WellNamed(x) <==> AllWellNamed(ts + [x])
  {
    if ts == [] {
      assert [] + [x] == [x] && [x][1..] == [];
      ConcatNothing(Mangled(x));
    } else {
      MangledSnoc(ts[1..], x);
      assert (ts + [x])[0] == ts[0] && (ts + [x])[1..] == ts[1..] + [x];
      ConcatAssoc(Mangled(ts[0]), MangledArgs(ts[1..]), Mangled(x));
    }
  }

  lemma {:induction false} AddArgMangled(t: CType, x: CType)
    requires WellNamed(t) && !FunctionFree(t) && WellNamed(x)
    ensures WellNamed(AddArg(t, x)) && Mangled(AddArg(t, x)) == Mangled(t) + Mangled(x)
  {
    match t
    case Modified(c, v, r, base) =>
      AddArgMangled(base, x);
      ConcatAssoc(ModifierLetters(c, v, r), Mangled(base), Mangled(x));
    case Complex(base) =>
      AddArgMangled(base, x);
      ConcatAssoc("C", Mangled(base), Mangled(x));
    case Imaginary(base) =>
      AddArgMangled(base, x);
      ConcatAssoc("G", Mangled(base), Mangled(x));
    case Pointer(base) =>
      AddArgMangled(base, x);
      ConcatAssoc("P", Mangled(base), Mangled(x));
    case Array(_, base) =>
      AddArgMangled(base, x);
      ConcatAssoc("A", Mangled(base), Mangled(x));
    case Function(result, args) =>
      AddArgFunction(result, args, x);
  }

  lemma {:induction false} AddArgFunction(result: CType, args: seq<CType>, x: CType)
    requires WellNamed(Function(result, args)) && WellNamed(x)
    ensures WellNamed(Function(result, args + [x]))
    ensures Mangled(Function(result, args + [x])) == Mangled(Function(result, args)) + Mangled(x)
  {
    MangledSnoc(args, x);
    ConcatAssoc("F" + Mangled(result), MangledArgs(args), Mangled(x));
  }

  /** A type with a function that has arguments reads as two types as well: the innermost function
      that ends it gives its last argument away. */
  lemma {:induction false} TakeArg(t: CType) returns (t': CType, x: CType)
    requires WellNamed(t) && !ArgFree(t)
    ensures WellNamed(t') && WellNamed(x) && Mangled(t) == Mangled(t') + Mangled(x)
  {
    var b;
    match t
    case Modified(c, v, r, base) =>
      b, x := TakeArg(base);
      t' := Modified(c, v, r, b);
      ConcatAssoc(ModifierLetters(c, v, r), Mangled(b), Mangled(x));
    case Complex(base) =>
      b, x := TakeArg(base);
      t' := Complex(b);
      ConcatAssoc("C", Mangled(b), Mangled(x));
    case Imaginary(base) =>
      b, x := TakeArg(base);
      t' := Imaginary(b);
      ConcatAssoc("G", Mangled(b), Mangled(x));
    case Pointer(base) =>
      b, x := TakeArg(base);
      t' := Pointer(b);
      ConcatAssoc("P", Mangled(b), Mangled(x));
    case Array(ds, base) =>
      b, x := TakeArg(base);
      t' := Array(ds, b);
      ConcatAssoc("A", Mangled(b), Mangled(x));
    case Function(result, args) =>
      if args == [] {
        b, x := TakeArg(result);
        t' := Function(b, []);
        ConcatAssoc("F", Mangled(b), Mangled(x));
        assert Mangled(t') == "F" + Mangled(b) && Mangled(t) == "F" + Mangled(result);
      } else {
        var front := args[..|args| - 1];
        t', x := Function(result, front), args[|args| - 1];
        assert args == front + [x];
        MangledSnoc(front, x);
        ConcatAssoc("F" + Mangled(result), MangledArgs(front), Mangled(x));
      }
  }

  lemma {:induction false} ChainRival(ts: seq<CType>) returns (ts': seq<CType>)
    requires ts != [] && AllWellNamed(ts) && !Chain(ts)
    ensures ts' != [] && AllWellNamed(ts') && MangledArgs(ts') == MangledArgs(ts) && |ts'| != |ts|
  {
    if |ts| == 1 {
      var t', x := TakeArg(ts[0]);
      ts' := [t', x];
      assert ts'[1..] == [x] && [x][1..] == [] && ts[1..] == [];
      ConcatNothing(Mangled(x));
      ConcatNothing(Mangled(ts[0]));
    } else if !FunctionFree(ts[0]) {
      var t' := AddArg(ts[0], ts[1]);
      AddArgMangled(ts[0], ts[1]);
      ts' := [t'] + ts[2..];
      assert ts[1..][0] == ts[1] && ts[1..][1..] == ts[2..] && ts'[1..] == ts[2..];
      ConcatAssoc(Mangled(ts[0]), Mangled(ts[1]), MangledArgs(ts[2..]));
    } else {
      var rest := ChainRival(ts[1..]);
      ts' := [ts[0]] + rest;
      assert ts'[1..] == rest;
    }
  }

  lemma {:induction false} NormsLength(ts: seq<CType>)
    ensures |NormsOf(ts)| == |ts|
  {
    if ts != [] {
      NormsLength(ts[1..]);
    }
  }

  lemma {:induction false} FunctionRival(result: CType, args: seq<CType>) returns (t': CType)
    requires WellNamed(Function(result, args)) && !Chain([result] + args)
    ensures WellNamed(t') && Mangled(t') == Mangled(Function(result, args))
    ensures NormOf(t') != NormOf(Function(result, args))
  {
    var ts := [result] + args;
    assert ts[1..] == args;
    var ts' := ChainRival(ts);
    t' := Function(ts'[0], ts'[1..]);
    ConcatAssoc("F", Mangled(result), MangledArgs(args));
    ConcatAssoc("F", Mangled(ts'[0]), MangledArgs(ts'[1..]));
    NormsLength(args);
    NormsLength(ts'[1..]);
  }

  /** A type that is not unambiguous shares its mangling: an argument changes its function. */
  lemma {:induction false} Rival(t: CType) returns (t': CType)
    requires WellNamed(t) && !Unambiguous(t)
    ensures WellNamed(t') && Mangled(t') == Mangled(t) && NormOf(t') != NormOf(t)
  {
    var b;
    match t
    case Modified(c, v, r, base) =>
      b := Rival(base);
      t' := Modified(c, v, r, b);
      if NormOf(t') == NormOf(t) {
        PrefixedInjective(ModifierKinds(c, v, r), NormOf(b), NormOf(base));
      }
    case Complex(base) =>
      b := Rival(base);
      t' := Complex(b);
    case Imaginary(base) =>
      b := Rival(base);
      t' := Imaginary(b);
    case Pointer(base) =>
      b := Rival(base);
      t' := Pointer(b);
    case Array(ds, base) =>
      b := Rival(base);
      t' := Array(ds, b);
    case Function(result, args) =>
      t' := FunctionRival(result, args);
  }

  // ----- the exact extent

  /** No other type has the mangling of an unambiguous one. */
  lemma {:induction false} UnambiguousFaithful(t: CType, t': CType)
    requires WellNamed(t) && WellNamed(t') && Unambiguous(t)
    ensures Mangled(t) == Mangled(t') <==> NormOf(t) == NormOf(t')
  {
    MangledNorm(t);
    MangledNorm(t');
    if Mangled(t) == Mangled(t') {
      WellNamedGood(t);
      WellNamedGood(t');
      UnambiguousNorm(t);
      OnlyReading(NormOf(t), NormOf(t'));
    }
  }

  /** A mangling stands for one type, up to what it leaves out, if and only if the type is
      unambiguous. */
  lemma {:induction false} FaithfulExact(t: CType)
    requires WellNamed(t)
    ensures (forall t' :: WellNamed(t') && Mangled(t') == Mangled(t) ==> NormOf(t') == NormOf(t)) <==> Unambiguous(t)
  {
    if Unambiguous(t) {
      forall t' | WellNamed(t') && Mangled(t') == Mangled(t)
        ensures NormOf(t') == NormOf(t)
      {
        UnambiguousFaithful(t, t');
      }
    } else {
      var t' := Rival(t);
    }
  }

  /** No mangling properly extends that of a type if and only if the type is function-free: the
      outermost function always takes one more argument. */
  lemma {:induction false} PrefixFreeExact(t: CType)
    requires WellNamed(t)
    ensures FunctionFree(t) <==> forall t' :: WellNamed(t') ==> !(Mangled(t) < Mangled(t'))
  {
    if FunctionFree(t) {
      forall t' | WellNamed(t')
        ensures !(Mangled(t) < Mangled(t'))
      {
        if Mangled(t) < Mangled(t') {
          NotExtended(t, t', Mangled(t')[|Mangled(t)|..]);
        }
      }
    } else {
      var x := Basic(Int);
      AddArgMangled(t, x);
      assert WellNamed(AddArg(t, x)) && Mangled(t) < Mangled(AddArg(t, x));
    }
  }

  lemma {:induction false} NotExtended(t: CType, t': CType, u: string)
    requires FunctionFree(t) && WellNamed(t') && Mangled(t) + u == Mangled(t')
    ensures u == ""
  {
    FunctionFreePlain(t);
    WellNamedGood(t');
    MangledNorm(t);
    MangledNorm(t');
    ConcatNothing(Mangled(t'));
    PlainFirst(NormOf(t), NormOf(t'), u, "");
  }

  // ----- one function type

  /** A type that is a function under pointers, arrays and modifiers, or none at all. */
  predicate OneFunction(t: CType) {
    match t
    case Modified(_, _, _, base) => OneFunction(base)
    case Complex(base) => OneFunction(base)
    case Imaginary(base) => OneFunction(base)
    case Pointer(base) => OneFunction(base)
    case Array(_, base) => OneFunction(base)
    case Function(result, args) => FunctionFree(result) && AllFunctionFree(args)
    case Named(_, name) => Identifier(name)
    case _ => true
  }

  predicate AllFunctionFree(ts: seq<CType>) {
    ts == [] || (FunctionFree(ts[0]) && AllFunctionFree(ts[1..]))
  }

  lemma {:induction false} FunctionFreeArgFree(t: CType)
    requires FunctionFree(t)
    ensures ArgFree(t) && WellNamed(t)
  {
    match t
    case Modified(_, _, _, base) => FunctionFreeArgFree(base);
    case Complex(base) => FunctionFreeArgFree(base);
    case Imaginary(base) => FunctionFreeArgFree(base);
    case Pointer(base) => FunctionFreeArgFree(base);
    case Array(_, base) => FunctionFreeArgFree(base);
    case _ =>
  }

  lemma {:induction false} FunctionFreeChain(ts: seq<CType>)
    requires AllFunctionFree(ts)
    ensures AllWellNamed(ts) && (ts != [] ==> Chain(ts))
  {
    if ts != [] {
      FunctionFreeArgFree(ts[0]);
      FunctionFreeChain(ts[1..]);
    }
  }

  lemma {:induction false} OneFunctionUnambiguous(t: CType)
    requires OneFunction(t)
    ensures WellNamed(t) && Unambiguous(t)
  {
    match t
    case Modified(_, _, _, base) => OneFunctionUnambiguous(base);
    case Complex(base) => OneFunctionUnambiguous(base);
    case Imaginary(base) => OneFunctionUnambiguous(base);
    case Pointer(base) => OneFunctionUnambiguous(base);
    case Array(_, base) => OneFunctionUnambiguous(base);
    case Function(result, args) =>
      assert ([result] + args)[1..] == args;
      FunctionFreeChain([result] + args);
    case _ =>
  }

  /** Equal manglings mean equal types, up to what the string leaves out, also with one function type
      that is not inside another. */
  lemma {:induction false} OneFunctionFaithful(t: CType, t': CType)
    requires OneFunction(t) && OneFunction(t')
    ensures Mangled(t) == Mangled(t') <==> NormOf(t) == NormOf(t')
  {
    OneFunctionUnambiguous(t);
    OneFunctionUnambiguous(t');
    UnambiguousFaithful(t, t');
  }

  /** Where a function type takes a function, the argument lists run together: a procedure of a
      function of a character, and one of a function and a character. */
  lemma {:induction false} NestedFunctionsCollide()
    ensures var i, c, v := Basic(Int), Basic(Char), Basic(Void);
            var t, t' := Function(v, [Function(i, [c])]), Function(v, [Function(i, []), c]);
            Mangled(t) == Mangled(t') == "FvFic" && NormOf(t) != NormOf(t')
  {
    var i, c, v := Basic(Int), Basic(Char), Basic(Void);
    assert [c][1..] == [] && MangledArgs([c]) == "c";
    assert Mangled(Function(i, [c])) == "F" + "i" + "c";
    assert [Function(i, [c])][1..] == [];
    assert [Function(i, []), c][1..] == [c];
    assert Mangled(Function(i, [])) == "F" + "i" + "";
    assert MangledArgs([Function(i, []), c]) == "Fi" + "c";
    assert MangledArgs([Function(i, [c])]) == "Fic" + "";
    assert NormsOf([Function(i, [c])]) == [NormOf(Function(i, [c]))];
    assert |NormsOf([Function(i, []), c])| == 2;
  }

  /** The same where a function gives a function back. */
  lemma {:induction false} FunctionResultsCollide()
    ensures var i, c := Basic(Int), Basic(Char);
            var t, t' := Function(Function(i, []), [c]), Function(Function(i, [c]), []);
            Mangled(t) == Mangled(t') == "FFic" && NormOf(t) != NormOf(t')
  {
    var i, c := Basic(Int), Basic(Char);
    assert [c][1..] == [] && MangledArgs([c]) == "c" && |NormsOf([c])| == 1;
    assert Mangled(Function(i, [c])) == "F" + "i" + "c";
    assert Mangled(Function(i, [])) == "F" + "i" + "";
    assert Mangled(Function(Function(i, []), [c])) == "F" + "Fi" + "c";
    assert Mangled(Function(Function(i, [c]), [])) == "F" + "Fic" + "";
  }

  /** A function type's mangling can start another one. */
  lemma {:induction false} FunctionsNotPrefixFree()
    ensures Mangled(Function(Basic(Void), [])) < Mangled(Function(Basic(Void), [Basic(Int)]))
  {
    assert [Basic(Int)][1..] == [];
    assert MangledArgs([Basic(Int)]) == "i";
  }
}
