/**
 A fragment of the Itanium C++ ABI's mangling (section 5.1): everything but numbered substitutions and
 template arguments.  Names are plain, in namespace std, or nested with member qualifiers; their parts are
 source names, operators, constructors, destructors and standard abbreviations; types are built from builtin
 and class types by pointers, references, cv-qualifiers and function types.  What is mangled here can be
 printed directly from the tree.
 */
module Mangling {
  import opened Types
  import opened Placements

  datatype Component =
    | Id(id: string)
    | Operator(code: string)
    | Constructor(kind: char)
    | Destructor(kind: char)
    | Standard(letter: char)

  datatype Name =
    | Plain(part: Component)
    | InStd(part: Component)
    | Nested(qualifiers: string, reference: string, parts: seq<Component>)

  datatype TypeTree =
    | Builtin(code: char)
    | Extended(code: char)
    | Pointer(kind: char, pointee: TypeTree)
    | Qualified(qualifiers: string, base: TypeTree)
    | Class(name: Name)
    | Abbreviated(letter: char)
    | Function(extern: bool, result: TypeTree, params: seq<TypeTree>)

  datatype Encoding = Encoding(name: Name, params: seq<TypeTree>)

  predicate IsDigit(c: char) { '0' <= c <= '9' }

  predicate IsQualifier(c: char) { c == 'K' || c == 'V' || c == 'r' }

  predicate IsPointerKind(c: char) { c == 'P' || c == 'R' || c == 'O' }

  function BuiltinName(c: char): Option<string> {
    match c
    case 'v' => Some("void")
    case 'w' => Some("wchar_t")
    case 'b' => Some("bool")
    case 'c' => Some("char")
    case 'a' => Some("signed char")
    case 'h' => Some("unsigned char")
    case 's' => Some("short")
    case 't' => Some("unsigned short")
    case 'i' => Some("int")
    case 'j' => Some("unsigned int")
    case 'l' => Some("long")
    case 'm' => Some("unsigned long")
    case 'x' => Some("long long")
    case 'y' => Some("unsigned long long")
    case 'n' => Some("__int128")
    case 'o' => Some("unsigned __int128")
    case 'f' => Some("float")
    case 'd' => Some("double")
    case 'e' => Some("long double")
    case 'g' => Some("__float128")
    case 'z' => Some("...")
    case _ => None
  }

  function ExtendedName(c: char): Option<string> {
    match c
    case 'n' => Some("std::nullptr_t")
    case 'i' => Some("char32_t")
    case 's' => Some("char16_t")
    case 'a' => Some("auto")
    case 'c' => Some("decltype(auto)")
    case 'h' => Some("_Float16")
    case 'f' => Some("_Decimal32")
    case 'd' => Some("_Decimal64")
    case 'e' => Some("_Decimal128")
    case _ => None
  }

  function StandardName(c: char): Option<string> {
    match c
    case 't' => Some("std")
    case 'a' => Some("std::allocator")
    case 'b' => Some("std::basic_string")
    case 's' => Some("std::string")
    case 'i' => Some("std::istream")
    case 'o' => Some("std::ostream")
    case 'd' => Some("std::iostream")
    case _ => None
  }

  /** The names two-letter operator codes stand for. */
  function OperatorName(code: string): Option<string> {
    if |code| != 2 then None else
      var d := code[1];
      match code[0]
      case 'n' =>
        (match d
         case 'w' => Some("operator new")
         case 'a' => Some("operator new[]")
         case 'g' => Some("operator-")
         case 'e' => Some("operator!=")
         case 't' => Some("operator!")
         case _ => None)
      case 'd' =>
        (match d
         case 'l' => Some("operator delete")
         case 'a' => Some("operator delete[]")
         case 'e' => Some("operator*")
         case 'v' => Some("operator/")
         case 'V' => Some("operator/=")
         case _ => None)
      case 'p' =>
        (match d
         case 's' => Some("operator+")
         case 'l' => Some("operator+")
         case 'L' => Some("operator+=")
         case 'p' => Some("operator++")
         case 'm' => Some("operator->*")
         case 't' => Some("operator->")
         case _ => None)
      case 'a' =>
        (match d
         case 'd' => Some("operator&")
         case 'n' => Some("operator&")
         case 'S' => Some("operator=")
         case 'N' => Some("operator&=")
         case 'a' => Some("operator&&")
         case _ => None)
      case 'c' =>
        (match d
         case 'o' => Some("operator~")
         case 'm' => Some("operator,")
         case 'l' => Some("operator()")
         case _ => None)
      case 'm' =>
        (match d
         case 'i' => Some("operator-")
         case 'l' => Some("operator*")
         case 'I' => Some("operator-=")
         case 'L' => Some("operator*=")
         case 'm' => Some("operator--")
         case _ => None)
      case 'r' =>
        (match d
         case 'm' => Some("operator%")
         case 'M' => Some("operator%=")
         case 's' => Some("operator>>")
         case 'S' => Some("operator>>=")
         case _ => None)
      case 'o' =>
        (match d
         case 'r' => Some("operator|")
         case 'R' => Some("operator|=")
         case 'o' => Some("operator||")
         case _ => None)
      case 'e' =>
        (match d
         case 'o' => Some("operator^")
         case 'O' => Some("operator^=")
         case 'q' => Some("operator==")
         case _ => None)
      case 'l' =>
        (match d
         case 's' => Some("operator<<")
         case 'S' => Some("operator<<=")
         case 't' => Some("operator<")
         case 'e' => Some("operator<=")
         case _ => None)
      case 'g' =>
        (match d
         case 't' => Some("operator>")
         case 'e' => Some("operator>=")
         case _ => None)
      case 's' =>
        (match d
         case 's' => Some("operator<=>")
         case _ => None)
      case 'i' =>
        (match d
         case 'x' => Some("operator[]")
         case _ => None)
      case 'q' =>
        (match d
         case 'u' => Some("operator?")
         case _ => None)
      case _ => None
  }

  // ------------------------------------------------------------------ decimal numbers

  function Digit(d: nat): (c: char)
    requires d < 10
    ensures IsDigit(c) && DigitValue(c) == d
  {
    '0' + d as char
  }

  function DigitValue(c: char): nat
    requires IsDigit(c)
  {
    c as int - '0' as int
  }

  predicate AllDigits(s: string) { forall i :: 0 <= i < |s| ==> IsDigit(s[i]) }

  function Decimal(n: nat): (s: string)
    ensures s != "" && AllDigits(s)
  {
    if n < 10 then [Digit(n)] else Decimal(n / 10) + [Digit(n % 10)]
  }

  function Value(s: string): nat
    requires AllDigits(s)
  {
    if s == "" then 0 else 10 * Value(s[..|s| - 1]) + DigitValue(s[|s| - 1])
  }

  lemma {:induction false} DecimalValue(n: nat)
    ensures Value(Decimal(n)) == n
  {
    var s := Decimal(n);
    if n < 10 {
      assert s[..0] == "";
    } else {
      DecimalValue(n / 10);
      assert s[..|s| - 1] == Decimal(n / 10);
    }
  }

  lemma {:induction false} PrefixIsSmaller(s: string, k: nat)
    requires AllDigits(s) && k <= |s|
    ensures Value(s[..k]) <= Value(s)
    decreases |s|
  {
    if k < |s| {
      assert s[..|s| - 1][..k] == s[..k];
      PrefixIsSmaller(s[..|s| - 1], k);
    } else {
      assert s[..k] == s;
    }
  }

  // ------------------------------------------------------------------ mangling

  function MangleId(id: string): string { Decimal(|id|) + id }

  function ManglePart(c: Component): string {
    match c
    case Id(id) => MangleId(id)
    case Operator(code) => code
    case Constructor(k) => ['C', k]
    case Destructor(k) => ['D', k]
    case Standard(l) => ['S', l]
  }

  function MangleParts(parts: seq<Component>): string {
    if parts == [] then "" else ManglePart(parts[0]) + MangleParts(parts[1..])
  }

  function MangleName(n: Name): string {
    match n
    case Plain(p) => ManglePart(p)
    case InStd(p) => "St" + ManglePart(p)
    case Nested(qs, r, ps) => "N" + (qs + (r + (MangleParts(ps) + "E")))
  }

  function MangleType(t: TypeTree): string {
    match t
    case Builtin(c) => [c]
    case Extended(c) => ['D', c]
    case Pointer(k, p) => [k] + MangleType(p)
    case Qualified(qs, b) => qs + MangleType(b)
    case Class(n) => MangleName(n)
    case Abbreviated(l) => ['S', l]
    case Function(e, r, ps) => (if e then "FY" else "F") + (MangleType(r) + (MangleTypes(ps) + "E"))
  }

  function MangleTypes(ts: seq<TypeTree>): string {
    if ts == [] then "" else MangleType(ts[0]) + MangleTypes(ts[1..])
  }

  /** What follows the prefix of a mangled name. */
  function MangleBody(e: Encoding): string { MangleName(e.name) + MangleTypes(e.params) }

  const PREFIX := "_Z"

  /** The prefix once more underscored, as some object formats have it. */
  const LONG_PREFIX := "___Z"

  // ------------------------------------------------------------------ printing

  function Join(parts: seq<string>, separator: string): string {
    if parts == [] then "" else if |parts| == 1 then parts[0]
    else Join(parts[..|parts| - 1], separator) + (separator + parts[|parts| - 1])
  }

  /** A part's text; constructors and destructors repeat the last name before them. */
  function Text(c: Component, last: string): string {
    match c
    case Id(id) => id
    case Operator(code) => OperatorName(code).GetOr("")
    case Constructor(_) => last
    case Destructor(_) => "~" + last
    case Standard(l) => StandardName(l).GetOr("")
  }

  /** The last name once a part was read. */
  function NameAfter(c: Component, last: string): string {
    if c.Constructor? || c.Destructor? then last else Text(c, last)
  }

  function LastName(parts: seq<Component>): string {
    if parts == [] then "" else NameAfter(parts[|parts| - 1], LastName(parts[..|parts| - 1]))
  }

  function Texts(parts: seq<Component>): (r: seq<string>)
    ensures |r| == |parts|
  {
    if parts == [] then [] else
      var init := parts[..|parts| - 1];
      Texts(init) + [Text(parts[|parts| - 1], LastName(init))]
  }

  /** Member qualifiers are not printed. */
  function PrintName(n: Name): string {
    match n
    case Plain(p) => Text(p, "")
    case InStd(p) => "std::" + Text(p, "")
    case Nested(_, _, ps) => Join(Texts(ps), "::")
  }

  function PointerSuffix(k: char): string { if k == 'P' then "*" else if k == 'R' then "&" else "&&" }

  function QualifierText(c: char): string {
    if c == 'K' then " const" else if c == 'V' then " volatile" else " restrict"
  }

  /** Outermost qualifier last. */
  function PrintQualifiers(qs: string): string {
    if qs == "" then "" else QualifierText(qs[|qs| - 1]) + PrintQualifiers(qs[..|qs| - 1])
  }

  /** A parameter list is empty for a lone void. */
  function ParameterText(types: seq<string>): string {
    if types == ["void"] then "" else Join(types, ", ")
  }

  function PrintType(t: TypeTree): string {
    match t
    case Builtin(c) => BuiltinName(c).GetOr("")
    case Extended(c) => ExtendedName(c).GetOr("")
    case Pointer(k, p) => PrintType(p) + PointerSuffix(k)
    case Qualified(qs, b) => PrintType(b) + PrintQualifiers(qs)
    case Class(n) => PrintName(n)
    case Abbreviated(l) => StandardName(l).GetOr("")
    case Function(_, r, ps) => PrintType(r) + " (" + ParameterText(PrintTypes(ps)) + ")"
  }

  function PrintTypes(ts: seq<TypeTree>): (r: seq<string>)
    ensures |r| == |ts|
  {
    if ts == [] then [] else PrintTypes(ts[..|ts| - 1]) + [PrintType(ts[|ts| - 1])]
  }

  /** A variable prints as its name; a function with its parameter list. */
  function Print(e: Encoding): string {
    PrintName(e.name) + if e.params == [] then "" else "(" + ParameterText(PrintTypes(e.params)) + ")"
  }

  // ------------------------------------------------------------------ well-formed trees

  /** An identifier does not start with a digit. */
  predicate IdOk(id: string) { id != "" && !IsDigit(id[0]) }

  predicate PartOk(c: Component) {
    match c
    case Id(id) => IdOk(id)
    case Operator(code) => OperatorName(code).Some?
    case Constructor(k) => '1' <= k <= '5'
    case Destructor(k) => k in {'0', '1', '2', '4', '5'}
    case Standard(l) => StandardName(l).Some?
  }

  predicate IsUnqualified(c: Component) { (c.Id? || c.Operator?) && PartOk(c) }

  predicate PartsOk(parts: seq<Component>) { forall i :: 0 <= i < |parts| ==> PartOk(parts[i]) }

  /** What a nested name starts with: not a member that repeats a name, nor an operator that reads as a
      member qualifier. */
  predicate CanLead(c: Component) {
    PartOk(c) && (c.Id? || c.Standard? || (c.Operator? && c.code[0] != 'r'))
  }

  predicate AllQualifiers(qs: string) { forall i :: 0 <= i < |qs| ==> IsQualifier(qs[i]) }

  predicate NameOk(n: Name) {
    match n
    case Plain(p) => IsUnqualified(p)
    case InStd(p) => IsUnqualified(p)
    case Nested(qs, r, ps) => AllQualifiers(qs) && r in {"", "R", "O"} && ps != [] && PartsOk(ps) && CanLead(ps[0])
  }

  predicate TypeOk(t: TypeTree) {
    match t
    case Builtin(c) => BuiltinName(c).Some?
    case Extended(c) => ExtendedName(c).Some?
    case Pointer(k, p) => IsPointerKind(k) && TypeOk(p)
    case Qualified(qs, b) => qs != "" && AllQualifiers(qs) && !b.Qualified? && TypeOk(b)
    case Class(n) => NameOk(n) && (n.Plain? ==> n.part.Id?)
    case Abbreviated(l) => StandardName(l).Some? && l != 't'
    case Function(_, r, ps) => TypeOk(r) && forall i :: 0 <= i < |ps| ==> TypeOk(ps[i])
  }

  /** How deep a parser nests on the type: one level a constructor, one more inside a nested name. */
  function Depth(t: TypeTree): nat {
    match t
    case Builtin(_) => 1
    case Extended(_) => 1
    case Pointer(_, p) => 1 + Depth(p)
    case Qualified(_, b) => 1 + Depth(b)
    case Class(n) => if n.Nested? then 2 else 1
    case Abbreviated(_) => 1
    case Function(_, r, ps) => 1 + if Depth(r) >= Deepest(ps) then Depth(r) else Deepest(ps)
  }

  function Deepest(ts: seq<TypeTree>): nat {
    if ts == [] then 0 else
      var before, last := Deepest(ts[..|ts| - 1]), Depth(ts[|ts| - 1]);
      if before >= last then before else last
  }

  const MAX_DEPTH := 256

  predicate AllOk(ts: seq<TypeTree>) { forall i :: 0 <= i < |ts| ==> TypeOk(ts[i]) }

  predicate EncodingOk(e: Encoding) { NameOk(e.name) && AllOk(e.params) }

  // ------------------------------------------------------------------ where a form stands in a string

  /** The string goes on after `pos`, if at all, with something other than template arguments. */
  ghost predicate NoTemplateAt(s: string, pos: nat) { pos < |s| ==> s[pos] != 'I' }

  ghost predicate IdAt(s: string, pos: nat, id: string) { IdOk(id) && At(s, pos, MangleId(id)) }

  ghost predicate PartAt(s: string, pos: nat, c: Component) { PartOk(c) && At(s, pos, ManglePart(c)) }

  ghost predicate NameAt(s: string, pos: nat, n: Name) {
    NameOk(n) && At(s, pos, MangleName(n)) && NoTemplateAt(s, pos + |MangleName(n)|)
  }

  ghost predicate TypeAt(s: string, pos: nat, t: TypeTree) {
    TypeOk(t) && At(s, pos, MangleType(t)) && NoTemplateAt(s, pos + |MangleType(t)|)
  }

  /** A run of types from `pos` to `end`, where the string or what encloses the run ends. */
  ghost predicate TypesAt(s: string, pos: nat, end: nat, ts: seq<TypeTree>) {
    && AllOk(ts) && At(s, pos, MangleTypes(ts)) && pos + |MangleTypes(ts)| == end
    && (end < |s| ==> s[end] == 'E')
  }

  /** A run of types the parser has to find the end of. */
  ghost predicate TypeRunAt(s: string, pos: nat, ts: seq<TypeTree>) {
    TypesAt(s, pos, pos + |MangleTypes(ts)|, ts)
  }

  ghost predicate EncodingAt(s: string, pos: nat, e: Encoding) {
    && EncodingOk(e) && At(s, pos, MangleBody(e))
    && (pos + |MangleBody(e)| < |s| ==> s[pos + |MangleBody(e)|] == 'E')
  }

  /** The rest of a nested name: parts and the closing E. */
  ghost predicate PartsAt(s: string, pos: nat, parts: seq<Component>) {
    PartsOk(parts) && At(s, pos, MangleParts(parts) + "E")
  }

  /** A whole nested name. */
  ghost predicate NestedAt(s: string, pos: nat, n: Name) {
    n.Nested? && NameOk(n) && At(s, pos, MangleName(n))
  }

  // ------------------------------------------------------------------ first characters

  /** Letters with a meaning of their own never name a builtin type. */
  lemma BuiltinIsPlain(c: char)
    requires BuiltinName(c).Some?
    ensures !IsDigit(c) && !IsQualifier(c) && !IsPointerKind(c)
    ensures c !in {'N', 'S', 'T', 'F', 'D', 'E', 'I', 'Y'}
    ensures BuiltinName(c).value != ""
  {
  }

  /** Operators are spelled from a lower-case letter on. */
  lemma OperatorIsPlain(code: string)
    requires OperatorName(code).Some?
    ensures |code| == 2 && 'a' <= code[0] <= 'z' && OperatorName(code).value != ""
  {
  }

  lemma IdStartsWithDigit(id: string)
    ensures MangleId(id) != "" && IsDigit(MangleId(id)[0])
  {
    assert IsDigit(Decimal(|id|)[0]);
  }

  /** The first character of a mangled part tells its constructor. */
  lemma FirstOfPart(p: Component)
    requires PartOk(p)
    ensures ManglePart(p) != ""
    ensures var c := ManglePart(p)[0];
      && (p.Id? <==> IsDigit(c)) && (p.Operator? <==> 'a' <= c <= 'z')
      && (p.Constructor? <==> c == 'C') && (p.Destructor? <==> c == 'D') && (p.Standard? <==> c == 'S')
  {
    hide MangleId, OperatorName;
    if p.Id? {
      IdStartsWithDigit(p.id);
    } else if p.Operator? {
      OperatorIsPlain(p.code);
    }
  }

  /** The first character of a mangled type tells its constructor. */
  lemma FirstOfType(t: TypeTree)
    requires TypeOk(t)
    ensures MangleType(t) != "" && StartsAs(MangleType(t)[0], t)
  {
    hide MangleId, MangleParts, IdOk, PartsOk, OperatorName, StandardName, ExtendedName, BuiltinName;
    match t {
      case Qualified(qs, _) => assert MangleType(t)[0] == qs[0];
      case Class(n) =>
        if n.Plain? {
          FirstOfPart(n.part);
        }
      case _ =>
    }
    var first := MangleType(t)[0];
    if BuiltinName(first).Some? {
      BuiltinIsPlain(first);
    }
  }

  /** How the first character of a type tells what follows. */
  ghost predicate StartsAs(c: char, t: TypeTree) {
    && (t.Builtin? <==> BuiltinName(c).Some?)
    && (t.Extended? <==> c == 'D')
    && (t.Pointer? <==> IsPointerKind(c))
    && (t.Qualified? <==> IsQualifier(c))
    && (t.Class? && t.name.Nested? <==> c == 'N')
    && (t.Class? && t.name.Plain? <==> IsDigit(c))
    && ((t.Class? && t.name.InStd?) || t.Abbreviated? <==> c == 'S')
    && (t.Function? <==> c == 'F')
    && c !in {'E', 'I', 'T', 'Y'}
  }

  // ------------------------------------------------------------------ the codes and how things are spelled

  /** The type codes of section 5.1.5 ... */
  lemma BuiltinCodes()
    ensures BuiltinName('v') == Some("void") && BuiltinName('w') == Some("wchar_t")
    ensures BuiltinName('b') == Some("bool") && BuiltinName('c') == Some("char")
    ensures BuiltinName('a') == Some("signed char") && BuiltinName('h') == Some("unsigned char")
    ensures BuiltinName('s') == Some("short") && BuiltinName('t') == Some("unsigned short")
    ensures BuiltinName('i') == Some("int") && BuiltinName('j') == Some("unsigned int")
  {
  }

  lemma MoreBuiltinCodes()
    ensures BuiltinName('l') == Some("long") && BuiltinName('m') == Some("unsigned long")
    ensures BuiltinName('x') == Some("long long") && BuiltinName('y') == Some("unsigned long long")
    ensures BuiltinName('n') == Some("__int128") && BuiltinName('o') == Some("unsigned __int128")
    ensures BuiltinName('f') == Some("float") && BuiltinName('d') == Some("double")
    ensures BuiltinName('e') == Some("long double") && BuiltinName('g') == Some("__float128")
    ensures BuiltinName('z') == Some("...")
  {
  }

  lemma ExtendedCodes()
    ensures ExtendedName('n') == Some("std::nullptr_t") && ExtendedName('i') == Some("char32_t")
    ensures ExtendedName('s') == Some("char16_t") && ExtendedName('a') == Some("auto")
    ensures ExtendedName('c') == Some("decltype(auto)") && ExtendedName('h') == Some("_Float16")
    ensures ExtendedName('f') == Some("_Decimal32") && ExtendedName('d') == Some("_Decimal64")
    ensures ExtendedName('e') == Some("_Decimal128")
  {
  }

  /** ... the abbreviations of section 5.1.8 ... */
  lemma StandardCodes()
    ensures StandardName('t') == Some("std") && StandardName('a') == Some("std::allocator")
    ensures StandardName('b') == Some("std::basic_string") && StandardName('s') == Some("std::string")
    ensures StandardName('i') == Some("std::istream") && StandardName('o') == Some("std::ostream")
    ensures StandardName('d') == Some("std::iostream")
  {
  }

  /** ... and the operator codes of section 5.1.3: arithmetic, ... */
  lemma ArithmeticCodes()
    ensures OperatorName("nw") == Some("operator new") && OperatorName("na") == Some("operator new[]")
    ensures OperatorName("dl") == Some("operator delete") && OperatorName("da") == Some("operator delete[]")
    ensures OperatorName("ps") == Some("operator+") && OperatorName("ng") == Some("operator-")
    ensures OperatorName("ad") == Some("operator&") && OperatorName("de") == Some("operator*")
    ensures OperatorName("co") == Some("operator~") && OperatorName("pl") == Some("operator+")
    ensures OperatorName("mi") == Some("operator-") && OperatorName("ml") == Some("operator*")
    ensures OperatorName("dv") == Some("operator/") && OperatorName("rm") == Some("operator%")
    ensures OperatorName("an") == Some("operator&") && OperatorName("or") == Some("operator|")
  {
  }

  /** ... assignment and comparison, ... */
  lemma AssignmentCodes()
    ensures OperatorName("eo") == Some("operator^") && OperatorName("aS") == Some("operator=")
    ensures OperatorName("pL") == Some("operator+=") && OperatorName("mI") == Some("operator-=")
    ensures OperatorName("mL") == Some("operator*=") && OperatorName("dV") == Some("operator/=")
    ensures OperatorName("rM") == Some("operator%=") && OperatorName("aN") == Some("operator&=")
    ensures OperatorName("oR") == Some("operator|=") && OperatorName("eO") == Some("operator^=")
    ensures OperatorName("ls") == Some("operator<<") && OperatorName("rs") == Some("operator>>")
    ensures OperatorName("lS") == Some("operator<<=") && OperatorName("rS") == Some("operator>>=")
    ensures OperatorName("eq") == Some("operator==") && OperatorName("ne") == Some("operator!=")
  {
  }

  /** ... and the others. */
  lemma OtherCodes()
    ensures OperatorName("lt") == Some("operator<") && OperatorName("gt") == Some("operator>")
    ensures OperatorName("le") == Some("operator<=") && OperatorName("ge") == Some("operator>=")
    ensures OperatorName("ss") == Some("operator<=>") && OperatorName("nt") == Some("operator!")
    ensures OperatorName("aa") == Some("operator&&") && OperatorName("oo") == Some("operator||")
    ensures OperatorName("pp") == Some("operator++") && OperatorName("mm") == Some("operator--")
    ensures OperatorName("cm") == Some("operator,") && OperatorName("pm") == Some("operator->*")
    ensures OperatorName("pt") == Some("operator->") && OperatorName("cl") == Some("operator()")
    ensures OperatorName("ix") == Some("operator[]") && OperatorName("qu") == Some("operator?")
  {
  }

  /** No letter but these names a type. */
  lemma TypeLetters(c: char)
    ensures BuiltinName(c).Some? ==> c in "vwbcahstijlmxynofdegz"
    ensures ExtendedName(c).Some? ==> c in "nisachfde"
    ensures StandardName(c).Some? ==> c in "tabsiod"
  {
  }

  /** Pointers, references and qualifiers stand behind what they apply to. */
  lemma SuffixesAreSpelled(t: TypeTree)
    ensures PrintType(Pointer('P', t)) == PrintType(t) + "*"
    ensures PrintType(Pointer('R', t)) == PrintType(t) + "&"
    ensures PrintType(Pointer('O', t)) == PrintType(t) + "&&"
    ensures PrintType(Qualified("K", t)) == PrintType(t) + " const"
    ensures PrintType(Qualified("V", t)) == PrintType(t) + " volatile"
    ensures PrintType(Qualified("r", t)) == PrintType(t) + " restrict"
  {
    OneQualifier('K');
    OneQualifier('V');
    OneQualifier('r');
    hide PrintQualifiers;
  }

  lemma OneQualifier(c: char)
    ensures PrintQualifiers([c]) == QualifierText(c)
  {
    assert [c][..0] == "";
  }

  /** The innermost qualifier, which comes last, is printed first. */
  lemma QualifiersAreSpelled(qs: string, c: char)
    ensures PrintQualifiers(qs + [c]) == PrintQualifiers([c]) + PrintQualifiers(qs)
  {
    assert (qs + [c])[..|qs|] == qs;
    OneQualifier(c);
  }

  /** Parts are joined by "::"; constructors and destructors repeat the name before them. */
  lemma NamesAreSpelled(qualifiers: string, reference: string, a: Component, b: Component)
    ensures PrintName(Nested(qualifiers, reference, [a, b])) == Text(a, "") + ("::" + Text(b, NameAfter(a, "")))
    ensures PrintName(InStd(a)) == "std::" + Text(a, "")
    ensures a.Id? && b.Constructor? ==>
      PrintName(Nested(qualifiers, reference, [a, b])) == a.id + ("::" + a.id)
    ensures a.Id? && b.Destructor? ==>
      PrintName(Nested(qualifiers, reference, [a, b])) == a.id + ("::" + ("~" + a.id))
  {
    TwoTexts(a, b);
    var texts := [Text(a, ""), Text(b, NameAfter(a, ""))];
    TwoJoined(texts[0], texts[1], "::");
    hide Texts, Join;
  }

  lemma TwoTexts(a: Component, b: Component)
    ensures Texts([a, b]) == [Text(a, ""), Text(b, NameAfter(a, ""))]
  {
    hide Text, NameAfter;
    assert [a, b][..1] == [a] && [a][..0] == [];
  }

  lemma TwoJoined(a: string, b: string, separator: string)
    ensures Join([a, b], separator) == a + (separator + b) && Join([a], separator) == a
  {
    assert [a, b][..1] == [a];
  }

  lemma TwoPrinted(t: TypeTree, u: TypeTree)
    ensures PrintTypes([t, u]) == [PrintType(t), PrintType(u)] && PrintTypes([t]) == [PrintType(t)]
  {
    hide PrintType;
    assert [t, u][..1] == [t] && [t][..0] == [];
  }

  /** Parameters are joined by ", " in parentheses, none standing for a lone void; behind a function type's
      result there is a space. */
  lemma ParametersAreSpelled(n: Name, r: TypeTree, extern: bool, t: TypeTree, u: TypeTree)
    ensures Print(Encoding(n, [])) == PrintName(n)
    ensures Print(Encoding(n, [Builtin('v')])) == PrintName(n) + "()"
    ensures PrintType(t) != "void" ==> Print(Encoding(n, [t])) == PrintName(n) + ("(" + PrintType(t) + ")")
    ensures Print(Encoding(n, [t, u])) == PrintName(n) + ("(" + (PrintType(t) + (", " + PrintType(u))) + ")")
    ensures PrintType(Function(extern, r, [t, u])) ==
            PrintType(r) + " (" + (PrintType(t) + (", " + PrintType(u))) + ")"
  {
    TwoPrinted(t, u);
    TwoPrinted(Builtin('v'), u);
    TwoJoined(PrintType(t), PrintType(u), ", ");
    assert PrintType(Builtin('v')) == "void";
    assert "(" + "" + ")" == "()";
    hide PrintTypes, Join, PrintName;
  }
}
