/** The fallback demangler: a recursive-descent parser over one mutable cursor. */
module ItaniumDemanglers {
  import opened Types
  import opened Placements
  import opened Mangling

  predicate IsBase36(c: char) { IsDigit(c) || 'A' <= c <= 'Z' }

  function Base36Value(c: char): nat
    requires IsBase36(c)
  {
    if IsDigit(c) then c as int - '0' as int else c as int - 'A' as int + 10
  }

  predicate CanStartType(c: char) {
    IsDigit(c) || BuiltinName(c).Some? ||
    c in {'N', 'S', 'P', 'R', 'O', 'K', 'V', 'r', 'F', 'D', 'T'}
  }

  /** The end of a run of decimal digits. */
  function DigitsEnd(s: string, pos: nat): (end: nat)
    requires pos <= |s|
    ensures pos <= end <= |s|
    ensures AllDigits(s[pos..end])
    ensures end < |s| ==> !IsDigit(s[end])
    decreases |s| - pos
  {
    if pos < |s| && IsDigit(s[pos]) then
      var end := DigitsEnd(s, pos + 1);
      assert s[pos..end] == [s[pos]] + s[pos + 1..end];
      end
    else pos
  }

  /** A maximal run of digits and as many characters as it says: those characters, and where they end. */
  function SourceNameAt(s: string, pos: nat): Option<(string, nat)>
    requires pos <= |s|
  {
    var end := DigitsEnd(s, pos);
    var length := Value(s[pos..end]);
    if end == pos || end + length > |s| then None else Some((s[end..end + length], end + length))
  }

  /** A source name, or an operator's name for its two letters. */
  function UnqualifiedAt(s: string, pos: nat): Option<(string, nat)>
    requires pos <= |s|
  {
    if pos < |s| && IsDigit(s[pos]) then SourceNameAt(s, pos)
    else if pos + 1 < |s| && OperatorName(s[pos..pos + 2]).Some? then
      Some((OperatorName(s[pos..pos + 2]).value, pos + 2))
    else None
  }

  /** The end of a run of base-36 digits. */
  function Base36End(s: string, pos: nat): (end: nat)
    requires pos <= |s|
    ensures pos <= end <= |s|
    ensures forall i :: pos <= i < end ==> IsBase36(s[i])
    ensures end < |s| ==> !IsBase36(s[end])
    decreases |s| - pos
  {
    if pos < |s| && IsBase36(s[pos]) then Base36End(s, pos + 1) else pos
  }

  predicate AllBase36(digits: string) { forall i :: 0 <= i < |digits| ==> IsBase36(digits[i]) }

  function Base36(digits: string): nat
    requires AllBase36(digits)
  {
    if digits == "" then 0 else 36 * Base36(digits[..|digits| - 1]) + Base36Value(digits[|digits| - 1])
  }

  /** The index an underscore-terminated sequence number stands for and the position after it: none is the
      first, and numbers count on from the second, modulo the width of an index. */
  function SeqIdAt(s: string, pos: nat): Option<(nat, nat)>
    requires pos <= |s|
  {
    var end := Base36End(s, pos);
    if end >= |s| || s[end] != '_' then None
    else if end == pos then Some((0, pos + 1))
    else Some(((Base36(s[pos..end]) % WORD_MODULUS + 1) % WORD_MODULUS, end + 1))
  }

  function CharAt(s: string, pos: nat): char { if pos < |s| then s[pos] else '\0' }

  /** A standard abbreviation, or the remembered component of the number at hand, and where it ends. */
  function SubstitutionAt(s: string, pos: nat, subs: seq<string>): Option<(string, nat)>
    requires pos < |s|
  {
    var name := StandardName(CharAt(s, pos + 1));
    if name.Some? then Some((name.value, pos + 2)) else
      var id :- SeqIdAt(s, pos + 1);
      if id.0 < |subs| then Some((subs[id.0], id.1)) else None
  }

  /** An unqualified name starts at `pos`. */
  predicate UnqualifiedStart(s: string, pos: nat) {
    pos < |s| && (IsDigit(s[pos]) || (pos + 1 < |s| && OperatorName(s[pos..pos + 2]).Some?))
  }

  /** A substitution, and what it qualifies when it is the namespace std. */
  function StandardPrefixAt(s: string, pos: nat, subs: seq<string>): Option<(string, nat)>
    requires pos < |s|
  {
    var sub :- SubstitutionAt(s, pos, subs);
    if CharAt(s, pos + 1) == 't' && UnqualifiedStart(s, pos + 2) then
      var name :- UnqualifiedAt(s, pos + 2);
      Some(("std::" + name.0, name.1))
    else Some(sub)
  }

  /** A part of a nested name other than template arguments: its text, its end, and the name that
      constructors after it repeat. */
  function ComponentAt(s: string, pos: nat, subs: seq<string>, last: string): Option<(string, nat, string)>
    requires pos <= |s|
  {
    if CharAt(s, pos) == 'S' then
      var sub :- SubstitutionAt(s, pos, subs);
      Some((sub.0, sub.1, sub.0))
    else if CharAt(s, pos) == 'C' && CharAt(s, pos + 1) in {'1', '2', '3', '4', '5'} then Some((last, pos + 2, last))
    else if CharAt(s, pos) == 'D' && CharAt(s, pos + 1) in {'0', '1', '2', '4', '5'} then
      Some(("~" + last, pos + 2, last))
    else
      var name :- UnqualifiedAt(s, pos);
      Some((name.0, name.1, name.0))
  }

  class Parser {
    const s: string
    var pos: nat
    var ok: bool
    var depth: int
    var lastWasTemplate: bool
    var lastSubStdNs: bool
    var subs: seq<string>
    var templateArgs: seq<string>

    constructor (s: string)
      ensures this.s == s && pos == 0 && ok && depth == 0 && Valid()
    {
      this.s := s;
      pos, ok, depth := 0, true, 0;
      lastWasTemplate, lastSubStdNs := false, false;
      subs, templateArgs := [], [];
    }

    /** The cursor stays in the string, only a failed parse may have stepped past its end, and no
        component is remembered twice. */
    ghost predicate Valid()
      reads this
    {
      pos <= |s| + 1 && (ok ==> pos <= |s|) && Distinct(subs)
    }

    function PeekAt(d: nat): char
      reads this
    {
      if pos + d < |s| then s[pos + d] else '\0'
    }

    function Peek(): char
      reads this
    {
      PeekAt(0)
    }

    predicate Eof()
      reads this
    {
      pos >= |s|
    }

    method Consume(literal: string) returns (r: bool)
      requires Valid() && ok
      modifies this`pos
      ensures Valid()
      ensures r <==> At(s, old(pos), literal)
      ensures pos == if r then old(pos) + |literal| else old(pos)
    {
      if pos + |literal| <= |s| && s[pos..pos + |literal|] == literal {
        pos := pos + |literal|;
        return true;
      }
      return false;
    }

    method Fail()
      modifies this`ok
      ensures !ok
    {
      ok := false;
    }

    /** Remember a component unless it is known. */
    method AddSub(component: string)
      requires Distinct(subs)
      modifies this`subs
      ensures subs == if component in old(subs) then old(subs) else old(subs) + [component]
      ensures Distinct(subs) && component in subs
    {
      if component in subs {
        return;
      }
      subs := subs + [component];
    }

    method SubAt(index: nat) returns (r: string)
      requires Valid()
      modifies this`ok
      ensures Valid()
      ensures ok <==> old(ok) && index < |subs|
      ensures r == if index < |subs| then subs[index] else ""
    {
      if index >= |subs| {
        Fail();
        return "";
      }
      return subs[index];
    }

    /** The base-36 digits at the cursor, modulo the width of an index. */
    method ParseBase36() returns (index: nat)
      requires Valid() && ok
      modifies this`pos
      ensures Valid() && pos == Base36End(s, old(pos)) && AllBase36(s[old(pos)..pos])
      ensures index == Base36(s[old(pos)..pos]) % WORD_MODULUS
    {
      hide Base36, AllBase36, Distinct;
      index := 0;
      ghost var start := pos;
      NoBase36(s, start);
      while IsBase36(Peek())
        invariant Valid() && ok && start <= pos
        invariant AllBase36(s[start..pos]) && index == Base36(s[start..pos]) % WORD_MODULUS
        decreases |s| - pos
      {
        MoreBase36(s, start, pos);
        index := (index * 36 + Base36Value(Peek())) % WORD_MODULUS;
        pos := pos + 1;
      }
      Base36EndsAt(s, start, pos);
    }

    /** Digits and an underscore, or the underscore alone. */
    method ParseSeqId() returns (id: Option<nat>)
      requires Valid() && ok
      modifies this`pos, this`ok
      ensures Valid() && pos >= old(pos)
      ensures var read := SeqIdAt(s, old(pos));
        if read.None? then !ok && id.None? else ok && id == Some(read.value.0) && pos == read.value.1
    {
      if Peek() == '_' {
        pos := pos + 1;
        return Some(0);
      }
      if !IsBase36(Peek()) {
        Fail();
        return None;
      }
      var index := ParseBase36();
      var closed := Consume("_");
      if !closed {
        Fail();
        return None;
      }
      return Some((index + 1) % WORD_MODULUS);
    }

    /** The template argument of that number, remembered as a component. */
    method ParseTemplateParam() returns (r: string)
      requires Valid() && ok && Peek() == 'T'
      modifies this
      ensures Valid() && depth == old(depth) && pos >= old(pos)
      ensures ok ==> pos > old(pos)
      ensures var id := SeqIdAt(s, old(pos) + 1);
        if id.None? || id.value.0 >= |old(templateArgs)| then !ok
        else ok && pos == id.value.1 && r == old(templateArgs)[id.value.0] && r in subs
    {
      r := "";
      var _ := Consume("T");
      var id := ParseSeqId();
      if !ok {
        return;
      }
      var index := id.value;
      if index >= |templateArgs| {
        Fail();
        return;
      }
      r := templateArgs[index];
      AddSub(r);
    }

    /** A standard abbreviation, or the component of that number. */
    method ParseSubstitution() returns (r: string)
      requires Valid() && ok
      modifies this`pos, this`ok, this`lastSubStdNs
      ensures Valid() && pos >= old(pos)
      ensures ok ==> pos > old(pos) && old(Peek()) == 'S'
      ensures old(Peek()) == 'S' ==>
        var read := SubstitutionAt(s, old(pos), subs);
        if read.None? then !ok
        else ok && r == read.value.0 && pos == read.value.1 && (lastSubStdNs <==> CharAt(s, old(pos) + 1) == 't')
    {
      r := "";
      lastSubStdNs := false;
      if Peek() != 'S' {
        Fail();
        return;
      }
      pos := pos + 1;
      var c := Peek();
      match c {
        case 't' => pos := pos + 1; lastSubStdNs := true; return "std";
        case 'a' => pos := pos + 1; return "std::allocator";
        case 'b' => pos := pos + 1; return "std::basic_string";
        case 's' => pos := pos + 1; return "std::string";
        case 'i' => pos := pos + 1; return "std::istream";
        case 'o' => pos := pos + 1; return "std::ostream";
        case 'd' => pos := pos + 1; return "std::iostream";
        case _ =>
      }
      var id := ParseSeqId();
      if ok {
        r := SubAt(id.value);
      }
    }

    /** A decimal length and that many characters; a length beyond the string is given up on early. */
    method ParseSourceName() returns (r: string)
      requires Valid() && ok
      modifies this`pos, this`ok
      ensures Valid() && pos >= old(pos)
      ensures ok ==> pos > old(pos)
      ensures var read := SourceNameAt(s, old(pos));
        if read.None? then !ok else ok && r == read.value.0 && pos == read.value.1
      ensures forall id :: IdAt(s, old(pos), id) ==> ok && pos == old(pos) + |MangleId(id)| && r == id
    {
      hide IdAt, MangleId, Value, AllDigits, DigitsEnd, Distinct;
      r := "";
      var length: nat := 0;
      ghost var start := pos;
      forall id | IdAt(s, start, id) ensures SourceNameAt(s, start) == Some((id, start + |MangleId(id)|)) {
        WrittenIsRead(s, start, id);
      }
      DigitsBegin(s, start);
      if !IsDigit(Peek()) {
        Fail();
        return;
      }
      while IsDigit(Peek())
        invariant Valid() && ok && start <= pos
        invariant AllDigits(s[start..pos]) && length == Value(s[start..pos])
        invariant pos == start ==> IsDigit(Peek())
        decreases |s| - pos
      {
        MoreDigits(s, start, pos);
        length := length * 10 + DigitValue(Peek());
        pos := pos + 1;
        if length > |s| {
          TooLong(s, start, pos);
          Fail();
          return;
        }
      }
      DigitsEndAt(s, start, pos);
      if pos + length > |s| {
        Fail();
        return;
      }
      r := s[pos..pos + length];
      pos := pos + length;
    }

    predicate IsOperatorStart()
      reads this
    {
      pos + 1 < |s| && OperatorName(s[pos..pos + 2]).Some?
    }

    method ParseUnqualifiedName() returns (r: string)
      requires Valid() && ok
      modifies this`pos, this`ok
      ensures Valid() && pos >= old(pos)
      ensures ok ==> pos > old(pos)
      ensures var read := UnqualifiedAt(s, old(pos));
        if read.None? then !ok else ok && r == read.value.0 && pos == read.value.1
      ensures forall c :: PartAt(s, old(pos), c) && IsUnqualified(c) ==>
        ok && pos == old(pos) + |ManglePart(c)| && r == Text(c, "")
    {
      hide IdAt, PartAt, MangleId, OperatorName, SourceNameAt;
      ghost var start := pos;
      forall c | PartAt(s, start, c) && IsUnqualified(c)
        ensures if c.Id? then IsDigit(Peek()) && IdAt(s, start, c.id)
                else !IsDigit(Peek()) && start + 2 <= |s| && s[start..start + 2] == c.code && OperatorName(c.code).Some?
      {
        UnqualifiedShape(s, start, c);
      }
      if IsDigit(Peek()) {
        r := ParseSourceName();
        return;
      }
      if IsOperatorStart() {
        r := OperatorName(s[pos..pos + 2]).value;
        pos := pos + 2;
        return;
      }
      Fail();
      return "";
    }

    // ---------------------------------------------------------------- templates

    method ParseTemplateArgs() returns (out: string)
      requires Valid() && ok && Peek() == 'I'
      modifies this
      ensures Valid() && depth == old(depth) && pos >= old(pos)
      ensures ok ==> pos > old(pos)
      decreases |s| + 1 - pos, 0
    {
      var _ := Consume("I");
      out := "<";
      var args: seq<string> := [];
      ghost var start := pos;
      while !Eof() && Peek() != 'E'
        invariant Valid() && ok && depth == old(depth) && pos >= start
        invariant out != ""
        decreases |s| - pos
      {
        depth := depth + 1;
        if depth > MAX_DEPTH {
          Fail();
          depth := depth - 1;
          return "";
        }
        var arg := ParseTemplateArg();
        depth := depth - 1;
        if !ok {
          return "";
        }
        if args != [] {
          out := out + ", ";
        }
        out := out + arg;
        args := args + [arg];
      }
      var closed := Consume("E");
      if !closed {
        Fail();
        return "";
      }
      if out[|out| - 1] == '>' {
        out := out + " ";
      }
      out := out + ">";
      templateArgs := args;
    }

    method ParseTemplateArg() returns (out: string)
      requires Valid() && ok
      modifies this
      ensures Valid() && depth == old(depth) && pos >= old(pos)
      ensures ok ==> pos > old(pos)
      decreases |s| + 1 - pos, 6
    {
      depth := depth + 1;
      if depth > MAX_DEPTH {
        Fail();
        depth := depth - 1;
        return "";
      }
      match Peek() {
        case 'L' => out := ParseExprPrimary();
        case 'X' => Fail(); out := "";
        case 'J' => out := ParseArgumentPack();
        case _ => out := ParseType();
      }
      depth := depth - 1;
    }

    method ParseArgumentPack() returns (out: string)
      requires Valid() && ok && Peek() == 'J'
      modifies this
      ensures Valid() && depth == old(depth) && pos >= old(pos)
      ensures ok ==> pos > old(pos)
      decreases |s| + 1 - pos, 5
    {
      pos := pos + 1;
      out := "";
      var first := true;
      ghost var start := pos;
      while !Eof() && Peek() != 'E'
        invariant Valid() && ok && depth == old(depth) && pos >= start
        decreases |s| - pos
      {
        var t := ParseTemplateArg();
        if !ok {
          return "";
        }
        if !first {
          out := out + ", ";
        }
        out := out + t;
        first := false;
      }
      var closed := Consume("E");
      if !closed {
        Fail();
        return "";
      }
    }

    method ParseExprPrimary() returns (value: string)
      requires Valid() && ok && Peek() == 'L'
      modifies this
      ensures Valid() && depth == old(depth) && pos >= old(pos)
      ensures ok ==> pos > old(pos)
      decreases |s| + 1 - pos, 5
    {
      var _ := Consume("L");
      var type_ := "";
      ghost var start := pos;
      if Peek() != '_' && CanStartType(Peek()) {
        type_ := ParseType();
        if !ok {
          return "";
        }
      }
      value := "";
      while !Eof() && Peek() != 'E'
        invariant Valid() && ok && depth == old(depth) && pos >= start
        decreases |s| - pos
      {
        value := value + [Peek()];
        pos := pos + 1;
      }
      var closed := Consume("E");
      if !closed {
        Fail();
        return "";
      }
      if type_ == "bool" {
        return if value == "0" then "false" else "true";
      }
      if value != "" && value[0] == 'n' {
        value := "-" + value[1..];
      }
      return if value == "" then type_ else value;
    }

    // ---------------------------------------------------------------- types

    /** Parses any mangled type of the fragment to its printed form, unless it nests too deep. */
    method ParseType() returns (r: string)
      requires Valid() && ok
      modifies this
      ensures Valid() && depth == old(depth) && pos >= old(pos)
      ensures ok ==> pos > old(pos)
      ensures forall t :: TypeAt(s, old(pos), t) ==>
        && (ok <==> depth + Depth(t) <= MAX_DEPTH)
        && (ok ==> pos == old(pos) + |MangleType(t)| && r == PrintType(t))
      decreases |s| + 1 - pos, 4
    {
      hide TypeAt, PrintType, MangleType, Depth;
      ghost var start := pos;
      forall t | TypeAt(s, start, t) ensures Depth(t) > 0 {
        DepthIsPositive(t);
      }
      depth := depth + 1;
      if depth > MAX_DEPTH {
        Fail();
        depth := depth - 1;
        return "";
      }
      r := ParseTypeBody();
      depth := depth - 1;
    }

    /** The type itself, one level down. */
    method ParseTypeBody() returns (r: string)
      requires Valid() && ok && depth <= MAX_DEPTH
      modifies this
      ensures Valid() && depth == old(depth) && pos >= old(pos)
      ensures ok ==> pos > old(pos)
      ensures forall t :: TypeAt(s, old(pos), t) ==>
        && (ok <==> depth - 1 + Depth(t) <= MAX_DEPTH)
        && (ok ==> pos == old(pos) + |MangleType(t)| && r == PrintType(t))
      decreases |s| + 1 - pos, 3
    {
      hide TypeAt, PrintType, MangleType, BuiltinName, Depth;
      var c := Peek();
      ghost var start := pos;
      forall t | TypeAt(s, start, t) ensures StartsAs(c, t) && (IsFlat(t) ==> Depth(t) == 1) {
        TypeShape(s, start, t);
        FlatIsShallow(t);
      }
      if IsQualifier(c) {
        r := ParseQualified();
      } else if IsPointerKind(c) {
        r := ParsePointer();
      } else if c == 'N' {
        forall t | TypeAt(s, start, t)
          ensures t.Class? && NestedAt(s, start, t.name) && Depth(t) == 2
          ensures MangleType(t) == MangleName(t.name) && PrintType(t) == PrintName(t.name)
        {
          NestedType(s, start, t);
        }
        r := ParseNestedName(true);
      } else if c == 'S' {
        r := ParseStandardType();
      } else if c == 'T' {
        r := ParseTemplateParam();
      } else if IsDigit(c) {
        r := ParseClass();
      } else if c == 'F' {
        r := ParseFunctionType();
      } else if c == 'D' {
        r := ParseExtendedBuiltin();
      } else {
        r := ParseBuiltin();
      }
    }

    /** A letter that names a builtin type; any other fails. */
    method ParseBuiltin() returns (r: string)
      requires Valid() && ok
      modifies this`pos, this`ok
      ensures Valid() && pos >= old(pos)
      ensures ok <==> BuiltinName(old(Peek())).Some?
      ensures ok ==> pos == old(pos) + 1 && r == BuiltinName(old(Peek())).value
      ensures forall t :: TypeAt(s, old(pos), t) && t.Builtin? ==>
        ok && pos == old(pos) + |MangleType(t)| && r == PrintType(t)
    {
      hide TypeAt;
      ghost var start := pos;
      var name := BuiltinName(Peek());
      forall t | TypeAt(s, start, t) && t.Builtin?
        ensures start < |s| && name.Some? && |MangleType(t)| == 1 && PrintType(t) == name.value
      {
        BuiltinType(s, start, t);
      }
      if name.None? {
        Fail();
        return "";
      }
      pos := pos + 1;
      return name.value;
    }

    method ParseQualified() returns (r: string)
      requires Valid() && ok && IsQualifier(Peek()) && depth <= MAX_DEPTH
      modifies this
      ensures Valid() && depth == old(depth) && pos >= old(pos)
      ensures ok ==> pos > old(pos)
      ensures forall t :: TypeAt(s, old(pos), t) ==>
        && (ok <==> depth - 1 + Depth(t) <= MAX_DEPTH)
        && (ok ==> pos == old(pos) + |MangleType(t)| && r == PrintType(t))
      decreases |s| + 1 - pos, 2
    {
      hide TypeAt, PrintType, MangleType, PrintQualifiers, QualifierText, Depth;
      var qualifiers := "";
      ghost var start := pos;
      NoQualifiers(s, start);
      while IsQualifier(Peek())
        invariant Valid() && ok && depth == old(depth) && start <= pos
        invariant pos == start ==> IsQualifier(Peek())
        invariant QualifiersTo(s, start, pos) && qualifiers == PrintQualifiers(s[start..pos])
        decreases |s| - pos
      {
        MoreQualifiers(s, start, pos);
        qualifiers := QualifierText(Peek()) + qualifiers;
        pos := pos + 1;
      }
      ghost var middle := pos;
      forall t | TypeAt(s, start, t)
        ensures t.Qualified? && TypeAt(s, middle, t.base) && Depth(t) == 1 + Depth(t.base)
        ensures start + |MangleType(t)| == middle + |MangleType(t.base)|
        ensures PrintType(t) == PrintType(t.base) + qualifiers
      {
        TypeShape(s, start, t);
        QualifiedType(s, start, middle, t);
      }
      var base := ParseType();
      if !ok {
        return "";
      }
      r := base + qualifiers;
      AddSub(r);
    }

    method ParsePointer() returns (r: string)
      requires Valid() && ok && IsPointerKind(Peek()) && depth <= MAX_DEPTH
      modifies this
      ensures Valid() && depth == old(depth) && pos >= old(pos)
      ensures ok ==> pos > old(pos)
      ensures forall t :: TypeAt(s, old(pos), t) ==>
        && (ok <==> depth - 1 + Depth(t) <= MAX_DEPTH)
        && (ok ==> pos == old(pos) + |MangleType(t)| && r == PrintType(t))
      decreases |s| + 1 - pos, 2
    {
      hide TypeAt, PrintType, MangleType, Depth;
      var c := Peek();
      ghost var start := pos;
      forall t | TypeAt(s, start, t)
        ensures t.Pointer? && TypeAt(s, start + 1, t.pointee) && Depth(t) == 1 + Depth(t.pointee)
        ensures |MangleType(t)| == 1 + |MangleType(t.pointee)|
        ensures PrintType(t) == PrintType(t.pointee) + PointerSuffix(c)
      {
        TypeShape(s, start, t);
        PointerType(s, start, t);
      }
      pos := pos + 1;
      var base := ParseType();
      if !ok {
        return "";
      }
      r := base + PointerSuffix(c);
      AddSub(r);
    }

    method ParseClass() returns (r: string)
      requires Valid() && ok && IsDigit(Peek())
      modifies this
      ensures Valid() && depth == old(depth) && pos >= old(pos)
      ensures ok ==> pos > old(pos)
      ensures var read := SourceNameAt(s, old(pos));
        && (read.None? ==> !ok)
        && (read.Some? && CharAt(s, read.value.1) != 'I' ==> ok && r == read.value.0 && pos == read.value.1)
      ensures forall t :: TypeAt(s, old(pos), t) && t.Class? && t.name.Plain? ==>
        ok && pos == old(pos) + |MangleType(t)| && r == PrintType(t)
      decreases |s| + 1 - pos, 2
    {
      hide TypeAt, IdAt, PrintType, MangleType, MangleId, SourceNameAt;
      ghost var start := pos;
      forall t | TypeAt(s, start, t) && t.Class? && t.name.Plain?
        ensures t.name.part.Id? && IdAt(s, start, t.name.part.id)
        ensures MangleType(t) == MangleId(t.name.part.id) && PrintType(t) == t.name.part.id
        ensures NoTemplateAt(s, start + |MangleType(t)|)
      {
        ClassType(s, start, t);
      }
      r := ParseSourceName();
      if !ok {
        return "";
      }
      if Peek() == 'I' {
        var args := ParseTemplateArgs();
        if !ok {
          return "";
        }
        r := r + args;
      }
      AddSub(r);
    }

    /** A substitution, qualified by a name when it is the namespace std. */
    method ParseStandardPrefix() returns (prefix: string)
      requires Valid() && ok && Peek() == 'S'
      modifies this`pos, this`ok, this`lastSubStdNs, this`subs
      ensures Valid() && pos >= old(pos)
      ensures ok ==> pos > old(pos)
      ensures var read := StandardPrefixAt(s, old(pos), old(subs));
        if read.None? then !ok else ok && prefix == read.value.0 && pos == read.value.1
      ensures var c := CharAt(s, old(pos) + 1); StandardName(c).Some? && c != 't' ==>
        ok && pos == old(pos) + 2 && prefix == StandardName(c).value
      ensures forall part, length :: CharAt(s, old(pos) + 1) == 't' && InStdFollows(s, old(pos), part, length) ==>
        ok && pos == old(pos) + length && prefix == "std::" + Text(part, "")
    {
      hide PartAt, ManglePart, Text, OperatorName, UnqualifiedAt, SeqIdAt, Distinct;
      prefix := ParseSubstitution();
      if !ok {
        return "";
      }
      if lastSubStdNs && (IsDigit(Peek()) || IsOperatorStart()) {
        var name := ParseUnqualifiedName();
        if !ok {
          return "";
        }
        assert "std" + "::" + name == "std::" + name;
        prefix := prefix + "::" + name;
        AddSub(prefix);
      }
    }

    /** A substitution as a type. */
    method ParseStandardType() returns (r: string)
      requires Valid() && ok && Peek() == 'S'
      modifies this
      ensures Valid() && depth == old(depth) && pos >= old(pos)
      ensures ok ==> pos > old(pos)
      ensures var read := StandardPrefixAt(s, old(pos), old(subs));
        && (read.None? ==> !ok)
        && (read.Some? && CharAt(s, read.value.1) != 'I' ==> ok && r == read.value.0 && pos == read.value.1)
      ensures forall t :: TypeAt(s, old(pos), t) && (t.Class? || t.Abbreviated?) ==>
        ok && pos == old(pos) + |MangleType(t)| && r == PrintType(t)
      decreases |s| + 1 - pos, 2
    {
      hide TypeAt, PrintType, MangleType, PartAt, Text, InStdFollows, OperatorName, StandardName, Distinct;
      hide StandardPrefixAt;
      ghost var start, c := pos, CharAt(s, pos + 1);
      forall t | TypeAt(s, start, t) && (t.Class? || t.Abbreviated?)
        ensures start + 1 < |s| && StandardName(c).Some? && NoTemplateAt(s, start + |MangleType(t)|)
        ensures t.Abbreviated? ==> c != 't' && |MangleType(t)| == 2 && PrintType(t) == StandardName(c).value
        ensures t.Class? ==> c == 't' && t.name.InStd? && StandardName(c).value == "std"
        ensures t.Class? ==> InStdFollows(s, start, t.name.part, |MangleType(t)|)
        ensures t.Class? ==> PrintType(t) == "std::" + Text(t.name.part, "")
      {
        TypeShape(s, start, t);
        StandardType(s, start, t);
      }
      r := ParseStandardPrefix();
      if !ok {
        return "";
      }
      if Peek() == 'I' {
        var args := ParseTemplateArgs();
        if !ok {
          return "";
        }
        r := r + args;
        AddSub(r);
      }
    }

    /** Steps over the letter after D before looking at it, even past the end of the string. */
    method ParseExtendedBuiltin() returns (r: string)
      requires Valid() && ok && Peek() == 'D'
      modifies this`pos, this`ok
      ensures Valid() && pos == old(pos) + 2
      ensures ok <==> ExtendedName(old(PeekAt(1))).Some?
      ensures ok ==> r == ExtendedName(old(PeekAt(1))).value
      ensures forall t :: TypeAt(s, old(pos), t) && t.Extended? ==>
        ok && pos == old(pos) + |MangleType(t)| && r == PrintType(t)
    {
      hide TypeAt;
      ghost var start := pos;
      forall t | TypeAt(s, start, t) && t.Extended?
        ensures start + 1 < |s| && ExtendedName(s[start + 1]).Some? && |MangleType(t)| == 2
        ensures PrintType(t) == ExtendedName(s[start + 1]).value
      {
        ExtendedType(s, start, t);
      }
      var _ := Consume("D");
      var c := Peek();
      pos := pos + 1;
      match c {
        case 'n' => return "std::nullptr_t";
        case 'i' => return "char32_t";
        case 's' => return "char16_t";
        case 'a' => return "auto";
        case 'c' => return "decltype(auto)";
        case 'h' => return "_Float16";
        case 'f' => return "_Decimal32";
        case 'd' => return "_Decimal64";
        case 'e' => return "_Decimal128";
        case _ => Fail(); return "";
      }
    }

    /** A result type and parameter types up to the closing E. */
    method ParseFunctionType() returns (r: string)
      requires Valid() && ok && Peek() == 'F' && depth <= MAX_DEPTH
      modifies this
      ensures Valid() && depth == old(depth) && pos >= old(pos)
      ensures ok ==> pos > old(pos)
      ensures forall t :: TypeAt(s, old(pos), t) ==>
        && (ok <==> depth - 1 + Depth(t) <= MAX_DEPTH)
        && (ok ==> pos == old(pos) + |MangleType(t)| && r == PrintType(t))
      decreases |s| + 1 - pos, 2
    {
      hide TypeAt, TypesAt, PrintType, PrintTypes, MangleType, MangleTypes, Depth, Deepest, ParameterText;
      ghost var start := pos;
      var _ := Consume("F");
      if Peek() == 'Y' {
        pos := pos + 1;
      }
      ghost var from := pos;
      forall t | TypeAt(s, start, t)
        ensures FunctionAt(s, start, from, t) && Depth(t) == 1 + Max(Depth(t.result), Deepest(t.params))
        ensures PrintType(t) == PrintType(t.result) + " (" + ParameterText(PrintTypes(t.params)) + ")"
      {
        TypeShape(s, start, t);
        FunctionType(s, start, from, t);
      }
      var result := ParseType();
      if !ok {
        return "";
      }
      var params := ParseParameters(start, from);
      if !ok {
        return "";
      }
      r := result + " (" + params + ")";
      AddSub(r);
    }

    /** The parameters of the function type that started at `start`, whose result ends at the cursor. */
    method ParseParameters(ghost start: nat, ghost from: nat) returns (params: string)
      requires Valid() && ok && depth <= MAX_DEPTH
      modifies this
      ensures Valid() && depth == old(depth) && pos >= old(pos)
      ensures ok ==> pos > old(pos)
      ensures forall t :: FunctionAt(s, start, from, t) && old(pos) == from + |MangleType(t.result)| ==>
        && (ok <==> depth + Deepest(t.params) <= MAX_DEPTH)
        && (ok ==> pos == start + |MangleType(t)| && params == ParameterText(PrintTypes(t.params)))
      decreases |s| + 1 - pos, 5
    {
      hide TypeAt, TypesAt, PrintType, PrintTypes, MangleType, MangleTypes, Depth, Deepest, ParameterText, Join;
      hide TypesProgress, Listed, Distinct;
      params := "";
      ghost var begin, k := pos, 0;
      ghost var types: seq<string>, was: seq<string> := [], [];
      NothingListed();
      forall t | FunctionAt(s, start, from, t) && begin == from + |MangleType(t.result)|
        ensures TypesProgress(s, pos, start + |MangleType(t)| - 1, t.params, k, depth, types)
      {
        TypesStart(s, begin, start + |MangleType(t)| - 1, t.params, depth);
      }
      while !Eof() && Peek() != 'E'
        invariant Valid() && ok && depth == old(depth) && pos >= begin
        invariant Listed(types, params)
        invariant types == ["void"] ==> Peek() != 'E'
        invariant types == [] ==> params == ""
        invariant forall t :: FunctionAt(s, start, from, t) && begin == from + |MangleType(t.result)| ==>
          TypesProgress(s, pos, start + |MangleType(t)| - 1, t.params, k, depth, types)
        decreases |s| - pos
      {
        ghost var before := pos;
        was := types;
        forall t | FunctionAt(s, start, from, t) && begin == from + |MangleType(t.result)|
          ensures TypesGoOn(s, before, start + |MangleType(t)| - 1, t.params, k, depth, was)
        {
          TypesNext(s, before, start + |MangleType(t)| - 1, t.params, k, depth, was);
        }
        var t := ParseType();
        if !ok {
          return "";
        }
        types := types + [t];
        assert types[|was|] == t;
        k := k + 1;
        ListMore(was, params, t);
        if t == "void" && params == "" && Peek() == 'E' {
          break;
        }
        if params != "" {
          params := params + ", ";
        }
        params := params + t;
      }
      forall t | FunctionAt(s, start, from, t) && begin == from + |MangleType(t.result)|
        ensures depth + Deepest(t.params) <= MAX_DEPTH && types == PrintTypes(t.params)
        ensures pos == start + |MangleType(t)| - 1 && At(s, pos, "E")
        ensures params == ParameterText(types)
      {
        TypesEnd(s, pos, start + |MangleType(t)| - 1, t.params, k, depth, types);
        TypesPrint(t.params);
        ParametersListed(types, was, params, Peek());
      }
      var closed := Consume("E");
      if !closed {
        Fail();
        return "";
      }
    }

    // ---------------------------------------------------------------- names

    /** Qualifiers of a member function up to `end`, then at most one reference qualifier. */
    method SkipMemberQualifiers() returns (ghost end: nat)
      requires Valid() && ok
      modifies this`pos
      ensures Valid() && QualifiersTo(s, old(pos), end) && old(pos) <= end <= pos
      ensures end < |s| ==> !IsQualifier(s[end])
      ensures pos == if end < |s| && s[end] in {'R', 'O'} then end + 1 else end
    {
      while Peek() in {'r', 'V', 'K'}
        invariant Valid() && pos >= old(pos) && QualifiersTo(s, old(pos), pos)
        decreases |s| - pos
      {
        pos := pos + 1;
      }
      end := pos;
      if Peek() in {'R', 'O'} {
        pos := pos + 1;
      }
    }

    /** Parses any mangled nested name of the fragment to its parts joined by "::". */
    method ParseNestedName(asType: bool) returns (result: string)
      requires Valid() && ok && Peek() == 'N'
      modifies this
      ensures Valid() && depth == old(depth) && pos >= old(pos)
      ensures ok ==> pos > old(pos)
      ensures forall n :: NestedAt(s, old(pos), n) ==>
        && (ok <==> depth < MAX_DEPTH)
        && (ok ==> pos == old(pos) + |MangleName(n)| && result == PrintName(n) && !lastWasTemplate)
      decreases |s| + 1 - pos, 2
    {
      hide NestedAt, NestedProgress, PartAt, Join, Joined, MangleName, ManglePart, PrintName, Text, NameAfter;
      hide QualifiersTo, Distinct;
      ghost var start := pos;
      var _ := Consume("N");
      ghost var end := SkipMemberQualifiers();
      ghost var k := 0;
      result := "";
      var last := "";
      var first := true;
      forall n | NestedAt(s, start, n) ensures n.Nested? && NestedProgress(s, start, pos, n, k, result, last) {
        NestedStart(s, start, end, pos, n);
      }
      while !Eof() && Peek() != 'E'
        invariant Valid() && ok && depth == old(depth) && pos > start
        invariant forall n :: NestedAt(s, start, n) ==>
          n.Nested? && NestedProgress(s, start, pos, n, k, result, last) && (first <==> k == 0)
          && (k > 0 ==> !lastWasTemplate && depth < MAX_DEPTH)
        decreases |s| - pos
      {
        ghost var before, was, wasLast := pos, result, last;
        forall n | NestedAt(s, start, n)
          ensures n.Nested? && k < |n.parts| && PartAt(s, before, n.parts[k])
          ensures NestedProgress(s, start, before + |ManglePart(n.parts[k])|, n, k + 1,
            Joined(first, was, Text(n.parts[k], wasLast)),
            NameAfter(n.parts[k], wasLast))
        {
          NestedNext(s, start, before, n, k, was, wasLast, first);
        }
        result, last, first := ParseComponent(result, last, first);
        if !ok {
          return "";
        }
        k := k + 1;
      }
      forall n | NestedAt(s, start, n)
        ensures At(s, pos, "E") && k > 0 && result == PrintName(n)
        ensures pos + 1 == start + |MangleName(n)|
      {
        NestedEnd(s, start, pos, n, k, result, last);
      }
      var closed := Consume("E");
      if !closed {
        Fail();
        return "";
      }
      if asType {
        AddSub(result);
      }
    }

    /** One component of a nested name, appended to what was read of it. */
    method ParseComponent(result: string, last: string, first: bool)
      returns (result': string, last': string, first': bool)
      requires Valid() && ok && !Eof() && Peek() != 'E'
      modifies this
      ensures Valid() && depth == old(depth) && pos >= old(pos)
      ensures ok ==> pos > old(pos)
      ensures var read := ComponentAt(s, old(pos), old(subs), last);
        old(Peek()) != 'I' ==>
          && (ok <==> depth < MAX_DEPTH && read.Some?)
          && (ok ==> pos == read.value.1 && !first' && !lastWasTemplate)
          && (ok ==> result' == Joined(first, result, read.value.0) && last' == read.value.2)
      ensures forall c :: PartAt(s, old(pos), c) ==>
        && (ok <==> depth < MAX_DEPTH)
        && (ok ==> pos == old(pos) + |ManglePart(c)| && !first' && !lastWasTemplate)
        && (ok ==> result' == Joined(first, result, Text(c, last)))
        && (ok ==> last' == NameAfter(c, last))
      decreases |s| + 1 - pos, 1
    {
      hide PartAt, ManglePart, Text, NameAfter, Joined, ComponentAt, Distinct;
      result', last', first' := result, last, first;
      ghost var start := pos;
      forall c | PartAt(s, start, c) ensures Peek() != 'I' {
        PartShape(s, start, c);
      }
      depth := depth + 1;
      if depth > MAX_DEPTH {
        Fail();
        depth := depth - 1;
        return;
      }
      if Peek() == 'I' {
        var args := ParseTemplateArgs();
        depth := depth - 1;
        if !ok {
          return;
        }
        result' := result + args;
        lastWasTemplate := true;
        if Peek() != 'E' {
          AddSub(result');
        }
        return;
      }
      var isSubstitution := Peek() == 'S';
      var component;
      component, last' := ReadComponent(last);
      depth := depth - 1;
      if !ok {
        return;
      }
      lastWasTemplate := false;
      result' := if first then component else result + ("::" + component);
      JoinedIs(first, result, component);
      first' := false;
      if Peek() != 'E' && !isSubstitution {
        AddSub(result');
      }
    }

    /** The text of a component, and the name that constructors after it repeat. */
    method ReadComponent(last: string) returns (component: string, last': string)
      requires Valid() && ok
      modifies this`pos, this`ok, this`lastSubStdNs
      ensures Valid() && pos >= old(pos)
      ensures ok ==> pos > old(pos)
      ensures var read := ComponentAt(s, old(pos), subs, last);
        if read.None? then !ok
        else ok && component == read.value.0 && pos == read.value.1 && last' == read.value.2
      ensures forall c :: PartAt(s, old(pos), c) ==>
        ok && pos == old(pos) + |ManglePart(c)| && component == Text(c, last) && last' == NameAfter(c, last)
    {
      hide PartAt, MangleId, OperatorName, StandardName, UnqualifiedAt, SeqIdAt, Distinct;
      ghost var start := pos;
      forall c | PartAt(s, start, c) ensures PartStartsAs(s, start, c) {
        PartShape(s, start, c);
      }
      last' := last;
      if Peek() == 'S' {
        component := ParseSubstitution();
        last' := component;
      } else if Peek() == 'C' && PeekAt(1) in {'1', '2', '3', '4', '5'} {
        pos := pos + 2;
        component := last;
      } else if Peek() == 'D' && PeekAt(1) in {'0', '1', '2', '4', '5'} {
        pos := pos + 2;
        component := "~" + last;
      } else {
        component := ParseUnqualifiedName();
        last' := component;
      }
    }

    /** The name an encoding starts with. */
    method ParseName() returns (r: string)
      requires Valid() && ok && depth == 0
      modifies this
      ensures Valid() && depth == 0 && pos >= old(pos)
      ensures ok ==> pos > old(pos)
      ensures forall n :: NameAt(s, old(pos), n) ==>
        ok && pos == old(pos) + |MangleName(n)| && r == PrintName(n) && !lastWasTemplate
    {
      hide NameAt, NestedAt, PartAt, MangleName, ManglePart, PrintName, Text;
      lastWasTemplate := false;
      var c := Peek();
      ghost var start := pos;
      forall n | NameAt(s, start, n) ensures NameStartsAs(s, start, n) && NoTemplateAt(s, start + |MangleName(n)|) {
        NameShape(s, start, n);
      }
      if c == 'N' {
        r := ParseNestedName(false);
        return;
      }
      if c == 'Z' {
        Fail();
        return "";
      }
      if c == 'S' {
        r := ParseStandardName();
        return;
      }
      r := ParseUnqualifiedName();
      if !ok {
        return "";
      }
      if Peek() == 'I' {
        var args := ParseTemplateArgs();
        if !ok {
          return "";
        }
        r := r + args;
        lastWasTemplate := true;
        AddSub(r);
      }
    }

    /** As a name, a substituted template is remembered as one. */
    method ParseStandardName() returns (prefix: string)
      requires Valid() && ok && Peek() == 'S'
      modifies this
      ensures Valid() && depth == old(depth) && pos >= old(pos)
      ensures ok ==> pos > old(pos)
      ensures var read := StandardPrefixAt(s, old(pos), old(subs));
        && (read.None? ==> !ok)
        && (read.Some? && CharAt(s, read.value.1) != 'I' ==> ok && prefix == read.value.0 && pos == read.value.1)
      ensures forall n :: NameAt(s, old(pos), n) && n.InStd? ==>
        ok && pos == old(pos) + |MangleName(n)| && prefix == PrintName(n) && lastWasTemplate == old(lastWasTemplate)
    {
      hide NameAt, MangleName, PrintName, Text, InStdFollows, StandardPrefixAt, Distinct;
      ghost var start := pos;
      forall n | NameAt(s, start, n) && n.InStd?
        ensures InStdFollows(s, start, n.part, |MangleName(n)|) && PrintName(n) == "std::" + Text(n.part, "")
        ensures start + 1 < |s| && s[start + 1] == 't' && NoTemplateAt(s, start + |MangleName(n)|)
      {
        StandardNameShape(s, start, n);
      }
      prefix := ParseStandardPrefix();
      if !ok {
        return "";
      }
      if Peek() == 'I' {
        var args := ParseTemplateArgs();
        if !ok {
          return "";
        }
        prefix := prefix + args;
        lastWasTemplate := true;
        AddSub(prefix);
      }
    }

    // ---------------------------------------------------------------- encodings

    /** Parses any run of the fragment's types, to the end of the string or an E, to their printed forms. */
    method ParseBareFunctionType() returns (types: seq<string>)
      requires Valid() && ok && depth == 0
      modifies this
      ensures Valid() && depth == 0 && pos >= old(pos)
      ensures forall ts :: TypeRunAt(s, old(pos), ts) ==>
        && (ok <==> Deepest(ts) <= MAX_DEPTH)
        && (ok ==> types == PrintTypes(ts) && pos == old(pos) + |MangleTypes(ts)|)
    {
      hide TypeRunAt, TypeAt, PrintTypes, PrintType, Deepest, CanStartType, Depth, MangleType, MangleTypes;
      hide TypesProgress;
      types := [];
      ghost var start, k := pos, 0;
      forall ts | TypeRunAt(s, start, ts) ensures TypesProgress(s, pos, start + |MangleTypes(ts)|, ts, k, 0, types) {
        RunStarts(s, start, ts);
      }
      while !Eof() && Peek() != 'E' && CanStartType(Peek())
        invariant Valid() && ok && depth == 0 && pos >= start
        invariant forall ts :: TypeRunAt(s, start, ts) ==>
          TypesProgress(s, pos, start + |MangleTypes(ts)|, ts, k, 0, types)
        decreases |s| - pos
      {
        ghost var before, was := pos, types;
        forall ts | TypeRunAt(s, start, ts)
          ensures TypesGoOn(s, before, start + |MangleTypes(ts)|, ts, k, 0, was)
        {
          TypesNext(s, before, start + |MangleTypes(ts)|, ts, k, 0, was);
        }
        var t := ParseType();
        if !ok {
          return [];
        }
        types := types + [t];
        k := k + 1;
      }
      forall ts | TypeRunAt(s, start, ts)
        ensures Deepest(ts) <= MAX_DEPTH && types == PrintTypes(ts) && pos == start + |MangleTypes(ts)|
      {
        TypesEnd(s, pos, start + |MangleTypes(ts)|, ts, k, 0, types);
      }
    }

    /** The parameter list; a lone void is an empty one. */
    method JoinParameters(types: seq<string>, begin: nat) returns (params: string)
      requires begin <= |types|
      ensures (forall i :: begin <= i < |types| ==> types[i] != "") ==> params == ParameterText(types[begin..])
    {
      hide Join;
      params := "";
      var i := begin;
      ghost var rest := types[begin..];
      JoinStart(rest, ", ");
      while i < |types|
        invariant begin <= i <= |types|
        invariant (forall i :: begin <= i < |types| ==> types[i] != "") ==>
          params == Join(rest[..i - begin], ", ") && (params == "" <==> i == begin)
        invariant i > begin ==> rest != ["void"]
      {
        if types[i] == "void" && |types| - begin == 1 {
          assert rest == ["void"];
          break;
        }
        JoinGrows(rest, i - begin, ", ");
        if params != "" {
          params := params + ", ";
        }
        params := params + types[i];
        i := i + 1;
      }
      assert i == |types| ==> rest[..i - begin] == rest;
      assert |rest| == |types| - begin;
    }

    /** Parses any mangled encoding of the fragment to its printed form, unless a type nests too deep. */
    method ParseEncoding() returns (name: string)
      requires Valid() && ok && depth == 0
      modifies this
      ensures Valid() && depth == 0
      ensures forall e :: EncodingAt(s, old(pos), e) ==>
        && (ok <==> Deepest(e.params) <= MAX_DEPTH)
        && (ok ==> name == Print(e) && pos == old(pos) + |MangleBody(e)|)
    {
      hide NameAt, EncodingAt, TypeRunAt, Deepest, PrintTypes, Join, PrintName, MangleName, MangleTypes, CanStartType;
      ghost var start := pos;
      forall e | EncodingAt(s, start, e)
        ensures EncodingSplits(s, start, start + |MangleName(e.name)|, e)
      {
        EncodingParts(s, start, e);
      }
      name := ParseName();
      if !ok {
        return "";
      }
      ghost var middle := pos;
      if !Eof() && Peek() != 'E' && CanStartType(Peek()) {
        var templated := lastWasTemplate;
        var types := ParseBareFunctionType();
        if !ok {
          return "";
        }
        var params := JoinParameters(types, if templated && types != [] then 1 else 0);
        forall e | EncodingAt(s, start, e)
          ensures params == ParameterText(PrintTypes(e.params))
        {
          TypesPrint(e.params);
          assert types[0..] == types;
        }
        name := name + ("(" + params + ")");
      }
    }

    method Run() returns (r: string)
      requires Valid() && ok && depth == 0 && pos == 0
      modifies this
      ensures forall e :: EncodingOk(e) && s in {PREFIX + MangleBody(e), LONG_PREFIX + MangleBody(e)} ==>
        r == if Deepest(e.params) <= MAX_DEPTH then Print(e) else ""
    {
      hide EncodingOk, MangleBody, EncodingAt, Deepest, Print;
      forall e | EncodingOk(e) && s in {PREFIX + MangleBody(e), LONG_PREFIX + MangleBody(e)}
        ensures var n := if At(s, 0, PREFIX) then 2 else 4;
          (n == 4 ==> At(s, 0, LONG_PREFIX)) && EncodingAt(s, n, e)
      {
        AfterPrefix(s, e);
      }
      var short := Consume(PREFIX);
      if !short {
        var long := Consume(LONG_PREFIX);
        if !long {
          return "";
        }
      }
      r := ParseEncoding();
      if !ok {
        r := "";
      }
    }
  }

  predicate StartsWith(s: string, prefix: string) { prefix <= s }

  predicate LooksMangled(name: string) { StartsWith(name, PREFIX) || StartsWith(name, LONG_PREFIX) }

  /**
   Every well-formed encoding of the fragment demangles to what its tree prints, exactly when no parameter
   nests deeper than the limit; past the limit, and where nothing is mangled, the name comes back as it was.
   */
  method Demangle(mangled: string) returns (r: string)
    ensures !("_Z" <= mangled) && !("___Z" <= mangled) ==> r == mangled
    ensures forall e :: EncodingOk(e) && mangled in {"_Z" + MangleBody(e), "___Z" + MangleBody(e)} ==>
      r == if Deepest(e.params) <= 256 then Print(e) else mangled
  {
    hide EncodingOk, MangleBody, Deepest, Print;
    if mangled == "" || !LooksMangled(mangled) {
      return mangled;
    }
    var parser := new Parser(mangled);
    r := parser.Run();
    forall e | EncodingOk(e) ensures Print(e) != "" {
      PrintsSomething(e);
    }
    if r == "" {
      r := mangled;
    }
  }

  // ------------------------------------------------------------------ source names

  /** What a mangled identifier looks like: digits, then a character that is none. */
  lemma IdShape(s: string, pos: nat, id: string)
    requires IdAt(s, pos, id)
    ensures var n := |Decimal(|id|)|;
      && n > 0 && id != "" && pos + n + |id| <= |s| && |MangleId(id)| == n + |id|
      && s[pos..pos + n] == Decimal(|id|) && s[pos + n..pos + n + |id|] == id
      && (forall i :: pos <= i < pos + n ==> IsDigit(s[i]))
      && !IsDigit(s[pos + n])
  {
    hide Decimal;
    var digits := Decimal(|id|);
    AtSplits(s, pos, digits, id);
    var n := |digits|;
    forall i | pos <= i < pos + n ensures IsDigit(s[i]) {
      assert s[pos..pos + n][i - pos] == digits[i - pos];
    }
    AtFirst(s, pos + n, id);
  }

  lemma DigitsBegin(s: string, start: nat)
    requires start <= |s|
    ensures AllDigits(s[start..start]) && Value(s[start..start]) == 0
    ensures start == |s| || !IsDigit(s[start]) ==> DigitsEnd(s, start) == start
  {
  }

  lemma MoreDigits(s: string, start: nat, pos: nat)
    requires start <= pos < |s| && AllDigits(s[start..pos]) && IsDigit(s[pos])
    ensures AllDigits(s[start..pos + 1])
    ensures Value(s[start..pos + 1]) == 10 * Value(s[start..pos]) + DigitValue(s[pos])
  {
    assert s[start..pos + 1][..pos - start] == s[start..pos];
  }

  lemma DigitsStop(s: string, start: nat, pos: nat, stop: nat)
    requires start <= pos <= |s| && AllDigits(s[start..pos]) && start <= stop < |s| && !IsDigit(s[stop])
    ensures pos <= stop
  {
    forall i | start <= i < pos ensures IsDigit(s[i]) {
      assert s[start..pos][i - start] == s[i];
    }
  }

  lemma DigitsEndAt(s: string, start: nat, end: nat)
    requires start <= end <= |s| && AllDigits(s[start..end]) && (end < |s| ==> !IsDigit(s[end]))
    ensures DigitsEnd(s, start) == end
  {
    hide DigitsEnd;
    var stop := DigitsEnd(s, start);
    if stop < |s| {
      DigitsStop(s, start, end, stop);
    }
    if end < |s| {
      DigitsStop(s, start, stop, end);
    }
  }

  /** The digits read so far are a prefix of the length, so a length that starts too long is too long. */
  lemma TooLong(s: string, start: nat, pos: nat)
    requires start < pos <= |s| && AllDigits(s[start..pos]) && Value(s[start..pos]) > |s|
    ensures SourceNameAt(s, start).None?
  {
    hide DigitsEnd, Value;
    var end := DigitsEnd(s, start);
    if end < |s| {
      DigitsStop(s, start, pos, end);
    }
    assert s[start..pos] == s[start..end][..pos - start];
    PrefixIsSmaller(s[start..end], pos - start);
  }

  /** An identifier reads back as it was written. */
  lemma WrittenIsRead(s: string, start: nat, id: string)
    requires IdAt(s, start, id)
    ensures SourceNameAt(s, start) == Some((id, start + |MangleId(id)|))
  {
    hide IdAt, Decimal, Value, MangleId, DigitsEnd;
    IdShape(s, start, id);
    DigitsEndAt(s, start, start + |Decimal(|id|)|);
    DecimalValue(|id|);
  }

  // ------------------------------------------------------------------ sequence numbers

  lemma AppendModulo(number: nat, digit: nat)
    ensures (number % WORD_MODULUS * 36 + digit) % WORD_MODULUS ==
            (36 * number + digit) % WORD_MODULUS
  {
  }

  lemma NoBase36(s: string, start: nat)
    requires start <= |s|
    ensures AllBase36(s[start..start]) && Base36(s[start..start]) == 0
  {
  }

  lemma MoreBase36(s: string, start: nat, pos: nat)
    requires start <= pos < |s| && AllBase36(s[start..pos]) && IsBase36(s[pos])
    ensures AllBase36(s[start..pos + 1])
    ensures Base36(s[start..pos + 1]) % WORD_MODULUS ==
            (Base36(s[start..pos]) % WORD_MODULUS * 36 + Base36Value(s[pos])) % WORD_MODULUS
  {
    assert s[start..pos + 1][..pos - start] == s[start..pos];
    AppendModulo(Base36(s[start..pos]), Base36Value(s[pos]));
  }

  lemma Base36EndsAt(s: string, start: nat, end: nat)
    requires start <= end <= |s| && AllBase36(s[start..end]) && (end < |s| ==> !IsBase36(s[end]))
    ensures Base36End(s, start) == end
  {
    hide Base36End;
    forall i | start <= i < end ensures IsBase36(s[i]) {
      assert s[start..end][i - start] == s[i];
    }
  }

  // ------------------------------------------------------------------ parts of names

  /** How the first characters of a part tell its constructor. */
  ghost predicate PartStartsAs(s: string, pos: nat, c: Component) {
    && pos < |s| && PartOk(c) && s[pos] != 'I' && s[pos] != 'E'
    && (c.Id? <==> IsDigit(s[pos])) && (c.Operator? <==> 'a' <= s[pos] <= 'z')
    && (c.Constructor? <==> s[pos] == 'C') && (c.Destructor? <==> s[pos] == 'D') && (c.Standard? <==> s[pos] == 'S')
    && (!c.Id? ==> |ManglePart(c)| == 2 && pos + 1 < |s| && s[pos + 1] == ManglePart(c)[1])
  }

  lemma PartShape(s: string, pos: nat, c: Component)
    requires PartAt(s, pos, c)
    ensures PartStartsAs(s, pos, c)
  {
    hide OperatorName, StandardName, MangleId;
    FirstOfPart(c);
    AtFirst(s, pos, ManglePart(c));
    if c.Operator? {
      OperatorIsPlain(c.code);
    }
    if !c.Id? {
      assert s[pos..pos + 2][1] == s[pos + 1];
    }
  }

  lemma UnqualifiedShape(s: string, pos: nat, c: Component)
    requires PartAt(s, pos, c) && IsUnqualified(c)
    ensures UnqualifiedStart(s, pos)
    ensures if c.Id? then IsDigit(s[pos]) && IdAt(s, pos, c.id)
            else !IsDigit(s[pos]) && pos + 2 <= |s| && s[pos..pos + 2] == c.code && OperatorName(c.code).Some?
  {
    hide OperatorName, MangleId;
    PartShape(s, pos, c);
  }

  // ------------------------------------------------------------------ nested names

  lemma PartsStep(s: string, pos: nat, parts: seq<Component>)
    requires PartsAt(s, pos, parts) && parts != []
    ensures PartAt(s, pos, parts[0]) && PartsAt(s, pos + |ManglePart(parts[0])|, parts[1..])
    ensures |MangleParts(parts)| == |ManglePart(parts[0])| + |MangleParts(parts[1..])|
    ensures pos < |s| && s[pos] != 'E'
  {
    hide ManglePart, PartOk;
    var part, rest := ManglePart(parts[0]), MangleParts(parts[1..]) + "E";
    assert MangleParts(parts) + "E" == part + rest;
    AtSplits(s, pos, part, rest);
    PartShape(s, pos, parts[0]);
  }

  /** One more part of a nested name behind what was read of it. */
  function Joined(first: bool, result: string, text: string): string {
    if first then text else result + ("::" + text)
  }

  lemma JoinedIs(first: bool, result: string, text: string)
    ensures Joined(first, result, text) == if first then text else result + ("::" + text)
  {
  }

  /** The first `k` parts were read up to `pos`. */
  ghost predicate NestedProgress(s: string, start: nat, pos: nat, n: Name, k: nat, result: string, last: string) {
    && n.Nested? && n.parts != [] && k <= |n.parts| && PartsAt(s, pos, n.parts[k..])
    && result == Join(Texts(n.parts[..k]), "::") && last == LastName(n.parts[..k])
    && pos + |MangleParts(n.parts[k..])| + 1 == start + |MangleName(n)|
  }

  lemma NestedForm(s: string, start: nat, n: Name)
    requires NestedAt(s, start, n)
    ensures n.Nested? && n.parts != [] && CanLead(n.parts[0]) && AllQualifiers(n.qualifiers)
    ensures n.reference in {"", "R", "O"} && PartsOk(n.parts)
    ensures var form := "N" + (n.qualifiers + (n.reference + (MangleParts(n.parts) + "E")));
      At(s, start, form) && |MangleName(n)| == |form|
  {
    hide MangleParts, PartsOk, CanLead, AllQualifiers, At;
  }

  /** The pieces of a nested name. */
  lemma NestedPieces(s: string, start: nat, n: Name)
    requires NestedAt(s, start, n)
    ensures n.Nested? && n.parts != [] && CanLead(n.parts[0]) && AllQualifiers(n.qualifiers)
    ensures n.reference in {"", "R", "O"}
    ensures var parts := start + 1 + |n.qualifiers| + |n.reference|;
      && At(s, start + 1, n.qualifiers) && At(s, start + 1 + |n.qualifiers|, n.reference)
      && PartsAt(s, parts, n.parts) && parts + |MangleParts(n.parts)| + 1 == start + |MangleName(n)|
  {
    hide NestedAt, MangleParts, MangleName, PartsOk, CanLead, AllQualifiers, At;
    NestedForm(s, start, n);
    var qs, reference, body := n.qualifiers, n.reference, MangleParts(n.parts) + "E";
    AtSplits(s, start, "N", qs + (reference + body));
    AtSplits(s, start + 1, qs, reference + body);
    AtSplits(s, start + 1 + |qs|, reference, body);
  }

  /** Member qualifiers end where the parts begin. */
  lemma NestedStart(s: string, start: nat, end: nat, pos: nat, n: Name)
    requires NestedAt(s, start, n)
    requires start < end <= |s| && QualifiersTo(s, start + 1, end) && (end < |s| ==> !IsQualifier(s[end]))
    requires pos == if end < |s| && s[end] in {'R', 'O'} then end + 1 else end
    ensures n.Nested? && NestedProgress(s, start, pos, n, 0, "", "")
  {
    hide MangleParts, NestedAt, PartsAt, AllQualifiers, QualifiersTo, CanLead, MangleName;
    NestedPieces(s, start, n);
    var middle := start + 1 + |n.qualifiers|;
    var parts := middle + |n.reference|;
    PartsStep(s, parts, n.parts);
    LeadingPart(s, parts, n.parts[0]);
    if n.reference != "" {
      AtFirst(s, middle, n.reference);
    }
    QualifiersEnd(s, start + 1, end, n.qualifiers);
    assert n.parts[0..] == n.parts && n.parts[..0] == [];
  }

  lemma LeadingPart(s: string, pos: nat, c: Component)
    requires PartAt(s, pos, c) && CanLead(c)
    ensures pos < |s| && !IsQualifier(s[pos]) && s[pos] !in {'R', 'O'}
  {
    hide OperatorName, StandardName, MangleId;
    FirstOfPart(c);
    AtFirst(s, pos, ManglePart(c));
  }

  /** A run of qualifiers that something else follows ends with it. */
  lemma QualifiersEnd(s: string, start: nat, end: nat, qs: string)
    requires start <= end <= |s| && QualifiersTo(s, start, end) && (end < |s| ==> !IsQualifier(s[end]))
    requires AllQualifiers(qs) && At(s, start, qs)
    requires start + |qs| < |s| && !IsQualifier(s[start + |qs|])
    ensures end == start + |qs|
  {
    var stop := start + |qs|;
    forall i | start <= i < stop ensures IsQualifier(s[i]) {
      assert s[start..stop][i - start] == qs[i - start];
    }
  }

  lemma NestedNext(s: string, start: nat, pos: nat, n: Name, k: nat, result: string, last: string, first: bool)
    requires NestedProgress(s, start, pos, n, k, result, last) && (first <==> k == 0)
    requires pos < |s| && s[pos] != 'E'
    ensures k < |n.parts| && PartAt(s, pos, n.parts[k])
    ensures NestedProgress(s, start, pos + |ManglePart(n.parts[k])|, n, k + 1,
              Joined(first, result, Text(n.parts[k], last)),
              NameAfter(n.parts[k], last))
  {
    hide ManglePart, PartAt, Join, MangleName, PartOk, Text, NameAfter;
    var parts := n.parts;
    assert parts[k..] != [] by {
      AtFirst(s, pos, MangleParts(parts[k..]) + "E");
    }
    PartsStep(s, pos, parts[k..]);
    assert parts[k..][1..] == parts[k + 1..];
    assert parts[..k + 1][..k] == parts[..k];
    var texts := Texts(parts[..k + 1]);
    assert texts[..k] == Texts(parts[..k]) && texts[..k + 1] == texts;
    JoinGrows(texts, k, "::");
  }

  lemma NestedEnd(s: string, start: nat, pos: nat, n: Name, k: nat, result: string, last: string)
    requires NestedProgress(s, start, pos, n, k, result, last)
    requires pos < |s| ==> s[pos] == 'E'
    ensures At(s, pos, "E") && k > 0 && result == PrintName(n)
    ensures pos + 1 == start + |MangleName(n)|
  {
    hide ManglePart, PartAt, Join, MangleName, PartOk;
    if n.parts[k..] != [] {
      PartsStep(s, pos, n.parts[k..]);
    }
    assert k == |n.parts|;
    assert n.parts[..k] == n.parts;
  }

  lemma JoinStart(parts: seq<string>, separator: string)
    ensures Join(parts[..0], separator) == ""
  {
  }

  lemma JoinGrows(parts: seq<string>, k: nat, separator: string)
    requires k < |parts|
    ensures Join(parts[..k + 1], separator) ==
      if k == 0 then parts[k] else Join(parts[..k], separator) + (separator + parts[k])
  {
    assert parts[..k + 1][..k] == parts[..k];
  }

  // ------------------------------------------------------------------ names

  /** What follows the letters of the namespace std. */
  ghost predicate InStdFollows(s: string, start: nat, part: Component, length: nat) {
    && PartAt(s, start + 2, part) && IsUnqualified(part)
    && length == 2 + |ManglePart(part)| && UnqualifiedStart(s, start + 2)
  }

  lemma StandardNameShape(s: string, pos: nat, n: Name)
    requires NameAt(s, pos, n) && n.InStd?
    ensures pos + 1 < |s| && s[pos] == 'S' && s[pos + 1] == 't' && NoTemplateAt(s, pos + |MangleName(n)|)
    ensures InStdFollows(s, pos, n.part, |MangleName(n)|) && PrintName(n) == "std::" + Text(n.part, "")
  {
    hide ManglePart, OperatorName;
    AtSplits(s, pos, "St", ManglePart(n.part));
    assert s[pos..pos + 2][0] == s[pos] && s[pos..pos + 2][1] == s[pos + 1];
    UnqualifiedShape(s, pos + 2, n.part);
  }

  /** How the first character of a name tells its constructor. */
  ghost predicate NameStartsAs(s: string, pos: nat, n: Name) {
    && pos < |s|
    && match n
       case Plain(p) =>
         && s[pos] !in {'N', 'Z', 'S'} && PartAt(s, pos, p) && IsUnqualified(p)
         && MangleName(n) == ManglePart(p) && PrintName(n) == Text(p, "")
       case InStd(_) => s[pos] == 'S'
       case Nested(_, _, _) => s[pos] == 'N' && NestedAt(s, pos, n)
  }

  lemma NameShape(s: string, pos: nat, n: Name)
    requires NameAt(s, pos, n)
    ensures NameStartsAs(s, pos, n) && NoTemplateAt(s, pos + |MangleName(n)|)
  {
    hide ManglePart, MangleParts, OperatorName, StandardName;
    match n
    case Plain(p) => PartShape(s, pos, p);
    case InStd(p) =>
      AtSplits(s, pos, "St", ManglePart(p));
      AtFirst(s, pos, "St");
    case Nested(_, _, _) =>
      AtFirst(s, pos, MangleName(n));
  }

  // ------------------------------------------------------------------ types

  lemma TypeShape(s: string, pos: nat, t: TypeTree)
    requires TypeAt(s, pos, t)
    ensures pos < |s| && StartsAs(s[pos], t) && CanStartType(s[pos])
  {
    hide BuiltinName, MangleType, TypeOk;
    FirstOfType(t);
    AtFirst(s, pos, MangleType(t));
    assert StartsAs(s[pos], t);
  }

  lemma DepthIsPositive(t: TypeTree)
    ensures Depth(t) > 0
  {
  }

  /** Types the parser does not nest for. */
  predicate IsFlat(t: TypeTree) {
    t.Builtin? || t.Extended? || t.Abbreviated? || (t.Class? && !t.name.Nested?)
  }

  lemma FlatIsShallow(t: TypeTree)
    ensures IsFlat(t) ==> Depth(t) == 1
  {
  }

  lemma BuiltinType(s: string, pos: nat, t: TypeTree)
    requires TypeAt(s, pos, t) && t.Builtin?
    ensures pos < |s| && BuiltinName(s[pos]).Some? && |MangleType(t)| == 1
    ensures PrintType(t) == BuiltinName(s[pos]).value
  {
    hide BuiltinName;
    AtFirst(s, pos, MangleType(t));
  }

  lemma ExtendedType(s: string, pos: nat, t: TypeTree)
    requires TypeAt(s, pos, t) && t.Extended?
    ensures pos + 1 < |s| && ExtendedName(s[pos + 1]).Some? && |MangleType(t)| == 2
    ensures PrintType(t) == ExtendedName(s[pos + 1]).value
  {
    hide ExtendedName;
    assert s[pos..pos + 2][1] == s[pos + 1];
  }

  lemma NestedType(s: string, pos: nat, t: TypeTree)
    requires TypeAt(s, pos, t) && t.Class? && t.name.Nested?
    ensures NestedAt(s, pos, t.name) && Depth(t) == 2
    ensures MangleType(t) == MangleName(t.name) && PrintType(t) == PrintName(t.name)
  {
    hide MangleName, PrintName, NameOk;
  }

  lemma StandardType(s: string, pos: nat, t: TypeTree)
    requires TypeAt(s, pos, t) && StartsAs('S', t)
    ensures pos + 1 < |s| && StandardName(s[pos + 1]).Some? && NoTemplateAt(s, pos + |MangleType(t)|)
    ensures t.Abbreviated? ==>
      s[pos + 1] != 't' && |MangleType(t)| == 2 && PrintType(t) == StandardName(s[pos + 1]).value
    ensures t.Class? ==> s[pos + 1] == 't' && t.name.InStd? && StandardName(s[pos + 1]).value == "std"
    ensures t.Class? ==> InStdFollows(s, pos, t.name.part, |MangleType(t)|)
    ensures t.Class? ==> PrintType(t) == "std::" + Text(t.name.part, "")
  {
    hide ManglePart, Text, PartOk, OperatorName, InStdFollows;
    if t.Class? {
      StandardNameShape(s, pos, t.name);
    } else {
      assert s[pos..pos + 2][1] == s[pos + 1];
    }
  }

  lemma ClassType(s: string, pos: nat, t: TypeTree)
    requires TypeAt(s, pos, t) && t.Class? && t.name.Plain?
    ensures t.name.part.Id? && IdAt(s, pos, t.name.part.id)
    ensures MangleType(t) == MangleId(t.name.part.id) && PrintType(t) == t.name.part.id
    ensures NoTemplateAt(s, pos + |MangleType(t)|)
  {
    hide MangleId;
  }

  lemma PointerType(s: string, pos: nat, t: TypeTree)
    requires TypeAt(s, pos, t) && t.Pointer?
    ensures pos < |s| && s[pos] == t.kind
    ensures TypeAt(s, pos + 1, t.pointee) && Depth(t) == 1 + Depth(t.pointee)
    ensures |MangleType(t)| == 1 + |MangleType(t.pointee)|
    ensures PrintType(t) == PrintType(t.pointee) + PointerSuffix(s[pos])
  {
    AtSplits(s, pos, [t.kind], MangleType(t.pointee));
    AtFirst(s, pos, [t.kind]);
  }

  ghost predicate QualifiersTo(s: string, start: nat, pos: nat) {
    pos <= |s| && forall i :: start <= i < pos ==> IsQualifier(s[i])
  }

  lemma NoQualifiers(s: string, start: nat)
    requires start <= |s|
    ensures PrintQualifiers(s[start..start]) == ""
  {
  }

  lemma MoreQualifiers(s: string, start: nat, pos: nat)
    requires start <= pos < |s|
    ensures PrintQualifiers(s[start..pos + 1]) == QualifierText(s[pos]) + PrintQualifiers(s[start..pos])
  {
    var read := s[start..pos + 1];
    hide QualifierText;
    assert read[..|read| - 1] == s[start..pos] && read[|read| - 1] == s[pos];
  }

  lemma QualifiersAre(s: string, start: nat, qs: string)
    requires At(s, start, qs)
    ensures start + |qs| <= |s| && s[start..start + |qs|] == qs
  {
  }

  lemma BaseIsUnqualified(c: char, t: TypeTree)
    requires StartsAs(c, t) && !t.Qualified?
    ensures !IsQualifier(c)
  {
    hide BuiltinName;
  }

  lemma QualifiedPieces(s: string, start: nat, t: TypeTree)
    requires TypeAt(s, start, t) && t.Qualified?
    ensures At(s, start, t.qualifiers) && AllQualifiers(t.qualifiers) && !t.base.Qualified?
    ensures TypeAt(s, start + |t.qualifiers|, t.base)
    ensures |MangleType(t)| == |t.qualifiers| + |MangleType(t.base)|
  {
    hide At, AllQualifiers, BuiltinName;
    AtSplits(s, start, t.qualifiers, MangleType(t.base));
  }

  /** All qualifiers having been read, the base type follows. */
  lemma QualifiedType(s: string, start: nat, pos: nat, t: TypeTree)
    requires TypeAt(s, start, t) && t.Qualified?
    requires start <= pos <= |s| && QualifiersTo(s, start, pos) && (pos < |s| ==> !IsQualifier(s[pos]))
    ensures TypeAt(s, pos, t.base) && Depth(t) == 1 + Depth(t.base)
    ensures start + |MangleType(t)| == pos + |MangleType(t.base)|
    ensures PrintType(t) == PrintType(t.base) + PrintQualifiers(s[start..pos])
  {
    QualifiersAre(s, start, t.qualifiers) by { QualifiedPieces(s, start, t); }
    hide BuiltinName, PrintQualifiers, At, AllQualifiers, IsQualifier, StartsAs, CanStartType;
    QualifiedPieces(s, start, t);
    TypeShape(s, start + |t.qualifiers|, t.base);
    BaseIsUnqualified(s[start + |t.qualifiers|], t.base);
    QualifiersEnd(s, start, pos, t.qualifiers);
  }

  // ------------------------------------------------------------------ runs of types

  lemma {:induction false} TypesStep(s: string, pos: nat, end: nat, ts: seq<TypeTree>)
    requires TypesAt(s, pos, end, ts)
    ensures ts == [] ==> pos == end
    ensures ts != [] ==>
      && TypeAt(s, pos, ts[0]) && pos < |s| && s[pos] != 'E' && CanStartType(s[pos])
      && TypesAt(s, pos + |MangleType(ts[0])|, end, ts[1..])
    ensures NoTemplateAt(s, pos)
    decreases |ts|
  {
    hide MangleType, TypeOk, CanStartType, StartsAs;
    if ts != [] {
      AtSplits(s, pos, MangleType(ts[0]), MangleTypes(ts[1..]));
      TypesStep(s, pos + |MangleType(ts[0])|, end, ts[1..]);
      TypeShape(s, pos, ts[0]);
      StartIsPlain(s[pos], ts[0]);
    }
  }

  lemma StartIsPlain(c: char, t: TypeTree)
    requires StartsAs(c, t)
    ensures c != 'E' && c != 'I'
  {
    hide BuiltinName;
  }

  /** The first `k` types were read up to `pos`, none of them too deep. */
  ghost predicate TypesProgress(s: string, pos: nat, end: nat, ts: seq<TypeTree>, k: nat, depth: int,
                                types: seq<string>) {
    && k <= |ts| && TypesAt(s, pos, end, ts[k..])
    && depth + Deepest(ts[..k]) <= MAX_DEPTH && types == PrintTypes(ts[..k])
  }

  /** The next type stands at `pos`, and reading it makes progress unless it is too deep. */
  ghost predicate TypesGoOn(s: string, pos: nat, end: nat, ts: seq<TypeTree>, k: nat, depth: int, types: seq<string>) {
    && k < |ts| && TypeAt(s, pos, ts[k])
    && if depth + Depth(ts[k]) > MAX_DEPTH then depth + Deepest(ts) > MAX_DEPTH
       else TypesProgress(s, pos + |MangleType(ts[k])|, end, ts, k + 1, depth, types + [PrintType(ts[k])])
  }

  lemma TypesStart(s: string, pos: nat, end: nat, ts: seq<TypeTree>, depth: int)
    requires TypesAt(s, pos, end, ts) && depth <= MAX_DEPTH
    ensures TypesProgress(s, pos, end, ts, 0, depth, [])
  {
    hide TypesAt;
    assert ts[0..] == ts;
  }

  lemma RunStarts(s: string, pos: nat, ts: seq<TypeTree>)
    requires TypeRunAt(s, pos, ts)
    ensures TypesProgress(s, pos, pos + |MangleTypes(ts)|, ts, 0, 0, [])
  {
    hide TypesAt, TypesProgress;
    TypesStart(s, pos, pos + |MangleTypes(ts)|, ts, 0);
  }

  lemma {:induction false} DeepestIsDeep(ts: seq<TypeTree>, k: nat)
    requires k < |ts|
    ensures Depth(ts[k]) <= Deepest(ts)
    decreases |ts|
  {
    hide Depth;
    if k < |ts| - 1 {
      DeepestIsDeep(ts[..|ts| - 1], k);
    }
  }

  lemma TypesNext(s: string, pos: nat, end: nat, ts: seq<TypeTree>, k: nat, depth: int, types: seq<string>)
    requires TypesProgress(s, pos, end, ts, k, depth, types) && pos < |s| && s[pos] != 'E'
    ensures TypesGoOn(s, pos, end, ts, k, depth, types)
  {
    hide TypeAt, MangleType, PrintType, Depth;
    TypesStep(s, pos, end, ts[k..]);
    assert k < |ts|;
    hide TypesAt;
    assert ts[k..][1..] == ts[k + 1..];
    assert ts[..k + 1][..k] == ts[..k];
    DeepestIsDeep(ts, k);
  }

  lemma TypesEnd(s: string, pos: nat, end: nat, ts: seq<TypeTree>, k: nat, depth: int, types: seq<string>)
    requires TypesProgress(s, pos, end, ts, k, depth, types)
    requires pos < |s| ==> s[pos] == 'E' || !CanStartType(s[pos])
    ensures pos == end && depth + Deepest(ts) <= MAX_DEPTH && types == PrintTypes(ts)
  {
    hide TypesAt, TypeAt, MangleType, PrintType, Depth, CanStartType;
    TypesStep(s, pos, end, ts[k..]);
    assert ts[..k] == ts;
  }

  // ------------------------------------------------------------------ function types

  /** The parts of a function type at `start`: its result at `from`, then its parameters and the closing E. */
  ghost predicate FunctionAt(s: string, start: nat, from: nat, t: TypeTree) {
    && t.Function? && AllOk(t.params) && |MangleType(t)| > 0
    && TypeAt(s, from, t.result)
    && TypesAt(s, from + |MangleType(t.result)|, start + |MangleType(t)| - 1, t.params)
    && At(s, start + |MangleType(t)| - 1, "E")
  }

  lemma FunctionPieces(s: string, start: nat, t: TypeTree)
    requires TypeAt(s, start, t) && t.Function?
    ensures TypeOk(t.result) && AllOk(t.params)
    ensures var prefix, rest := if t.extern then "FY" else "F", MangleTypes(t.params) + "E";
      && At(s, start, prefix) && At(s, start + |prefix|, MangleType(t.result) + rest)
      && |MangleType(t)| == |prefix| + |MangleType(t.result)| + |rest|
  {
    hide MangleTypes;
    var prefix, rest := if t.extern then "FY" else "F", MangleTypes(t.params) + "E";
    AtSplits(s, start, prefix, MangleType(t.result) + rest);
  }

  lemma FunctionType(s: string, start: nat, from: nat, t: TypeTree)
    requires TypeAt(s, start, t) && t.Function?
    requires from == if start + 1 < |s| && s[start + 1] == 'Y' then start + 2 else start + 1
    ensures FunctionAt(s, start, from, t) && Depth(t) == 1 + Max(Depth(t.result), Deepest(t.params))
    ensures PrintType(t) == PrintType(t.result) + " (" + ParameterText(PrintTypes(t.params)) + ")"
  {
    hide *;
    FunctionUnfolds(t);
    FunctionPieces(s, start, t);
    var prefix, rest := if t.extern then "FY" else "F", MangleTypes(t.params) + "E";
    var result := start + |prefix|;
    AfterPrefixLetters(s, start, prefix, t.result, rest);
    FunctionParts(s, result, t.result, t.params);
    assert from == result;
    FunctionIsAt(s, start, from, t);
  }

  lemma FunctionIsAt(s: string, start: nat, from: nat, t: TypeTree)
    requires t.Function? && AllOk(t.params)
    requires from + |MangleType(t.result)| + |MangleTypes(t.params)| + 1 == start + |MangleType(t)| && start < from
    requires TypeAt(s, from, t.result)
    requires var params := from + |MangleType(t.result)|; TypesAt(s, params, params + |MangleTypes(t.params)|, t.params)
    requires At(s, from + |MangleType(t.result)| + |MangleTypes(t.params)|, "E")
    ensures FunctionAt(s, start, from, t)
  {
    hide TypeAt, TypesAt, MangleType, MangleTypes, At;
  }

  lemma FunctionUnfolds(t: TypeTree)
    requires t.Function?
    ensures Depth(t) == 1 + Max(Depth(t.result), Deepest(t.params))
    ensures PrintType(t) == PrintType(t.result) + " (" + ParameterText(PrintTypes(t.params)) + ")"
  {
    hide ParameterText;
  }

  /** The letter Y belongs to the prefix: no result starts with it. */
  lemma AfterPrefixLetters(s: string, start: nat, prefix: string, result: TypeTree, rest: string)
    requires prefix in {"F", "FY"} && TypeOk(result)
    requires At(s, start, prefix) && At(s, start + |prefix|, MangleType(result) + rest)
    ensures start + 1 < |s| && (s[start + 1] == 'Y' <==> prefix == "FY")
  {
    hide MangleType, TypeOk, StartsAs;
    AtSplits(s, start + |prefix|, MangleType(result), rest);
    FirstOfType(result);
    AtFirst(s, start + |prefix|, MangleType(result));
    ResultIsNoY(MangleType(result)[0], result);
    assert s[start..start + |prefix|][|prefix| - 1] == s[start + |prefix| - 1];
  }

  lemma FunctionParts(s: string, pos: nat, result: TypeTree, params: seq<TypeTree>)
    requires TypeOk(result) && AllOk(params) && At(s, pos, MangleType(result) + (MangleTypes(params) + "E"))
    ensures var from := pos + |MangleType(result)|;
      && TypeAt(s, pos, result) && TypesAt(s, from, from + |MangleTypes(params)|, params)
      && At(s, from + |MangleTypes(params)|, "E")
  {
    hide MangleType, MangleTypes, TypeOk, AllOk, At, CanStartType;
    AtSplits(s, pos, MangleType(result), MangleTypes(params) + "E");
    var from := pos + |MangleType(result)|;
    AtSplits(s, from, MangleTypes(params), "E");
    AtFirst(s, from + |MangleTypes(params)|, "E");
    TypesStep(s, from, from + |MangleTypes(params)|, params);
  }

  lemma ResultIsNoY(c: char, t: TypeTree)
    requires StartsAs(c, t)
    ensures c != 'Y'
  {
    hide BuiltinName;
  }

  /** Non-empty types were listed with commas. */
  ghost predicate Listed(types: seq<string>, params: string) {
    AllPrinted(types) ==> params == Join(types, ", ") && (params == "" <==> types == [])
  }

  ghost predicate AllPrinted(types: seq<string>) { forall i :: 0 <= i < |types| ==> types[i] != "" }

  lemma NothingListed()
    ensures Listed([], "")
  {
  }

  lemma ListMore(types: seq<string>, params: string, t: string)
    requires Listed(types, params)
    ensures Listed(types + [t], (if params != "" then params + ", " else params) + t)
  {
    hide Join, AllPrinted;
    var more := types + [t];
    if AllPrinted(more) {
      PrintedBefore(types, t);
      assert more[..|types|] == types && more[..|types| + 1] == more;
      JoinGrows(more, |types|, ", ");
      assert (params + ", ") + t == params + (", " + t);
      assert "" + t == t;
    }
  }

  lemma PrintedBefore(types: seq<string>, t: string)
    requires AllPrinted(types + [t])
    ensures AllPrinted(types) && t != ""
  {
    assert (types + [t])[|types|] == t;
    assert forall i :: 0 <= i < |types| ==> types[i] == (types + [t])[i];
  }

  /** The list is complete, whether the loop ended or stopped at a lone void. */
  lemma ParametersListed(types: seq<string>, was: seq<string>, params: string, next: char)
    requires AllPrinted(types) && next == 'E'
    requires || (Listed(types, params) && (types == ["void"] ==> next != 'E'))
             || (types == was + ["void"] && params == "" && Listed(was, params))
    ensures params == ParameterText(types)
  {
    hide Join;
    if types == was + ["void"] && params == "" && Listed(was, params) {
      PrintedBefore(was, "void");
    }
  }

  // ------------------------------------------------------------------ encodings

  /** The name up to `middle`, then parameters unless it is a variable's. */
  ghost predicate EncodingSplits(s: string, pos: nat, middle: nat, e: Encoding) {
    && NameAt(s, pos, e.name) && middle == pos + |MangleName(e.name)| && AllOk(e.params)
    && TypeRunAt(s, middle, e.params)
    && |MangleBody(e)| == |MangleName(e.name)| + |MangleTypes(e.params)|
    && if e.params == []
       then (middle < |s| ==> s[middle] == 'E') && Deepest(e.params) == 0 && |MangleTypes(e.params)| == 0
       else middle < |s| && s[middle] != 'E' && CanStartType(s[middle])
  }

  lemma EncodingParts(s: string, pos: nat, e: Encoding)
    requires EncodingAt(s, pos, e)
    ensures EncodingSplits(s, pos, pos + |MangleName(e.name)|, e)
  {
    hide MangleName, CanStartType, TypeAt, NameOk, TypeOk;
    AtSplits(s, pos, MangleName(e.name), MangleTypes(e.params));
    var middle := pos + |MangleName(e.name)|;
    TypesStep(s, middle, middle + |MangleTypes(e.params)|, e.params);
  }

  lemma AfterPrefix(s: string, e: Encoding)
    requires EncodingOk(e) && s in {PREFIX + MangleBody(e), LONG_PREFIX + MangleBody(e)}
    ensures var n := if At(s, 0, PREFIX) then 2 else 4;
      (n == 4 ==> At(s, 0, LONG_PREFIX)) && EncodingAt(s, n, e)
  {
    hide MangleBody, EncodingOk;
    var prefix := if s == PREFIX + MangleBody(e) then PREFIX else LONG_PREFIX;
    assert At(s, 0, prefix + MangleBody(e));
    AtSplits(s, 0, prefix, MangleBody(e));
    if prefix == LONG_PREFIX {
      assert s[..2] == s[..4][..2];
      assert s[..2][1] != PREFIX[1];
    }
  }

  // ------------------------------------------------------------------ printed forms are not empty

  lemma JoinPrints(parts: seq<string>, separator: string)
    requires parts != [] && parts[0] != ""
    ensures Join(parts, separator) != ""
  {
    if |parts| > 1 {
      JoinPrints(parts[..|parts| - 1], separator);
    }
  }

  lemma {:induction false} TypePrints(t: TypeTree)
    requires TypeOk(t)
    ensures PrintType(t) != ""
  {
    hide OperatorName, PrintName, NameOk, ParameterText;
    match t
    case Builtin(c) => BuiltinIsPlain(c);
    case Extended(_) =>
    case Pointer(_, p) => TypePrints(p);
    case Qualified(_, b) => TypePrints(b);
    case Class(n) => NamePrints(n);
    case Abbreviated(_) =>
    case Function(_, _, _) =>
  }

  lemma NamePrints(n: Name)
    requires NameOk(n)
    ensures PrintName(n) != ""
  {
    hide Join;
    match n
    case Plain(p) => PartPrints(p);
    case InStd(_) =>
    case Nested(_, _, ps) =>
      PartPrints(ps[0]);
      FirstText(ps);
      JoinPrints(Texts(ps), "::");
  }

  lemma PartPrints(p: Component)
    requires PartOk(p) && (p.Id? || p.Operator? || p.Standard?)
    ensures Text(p, "") != ""
  {
    hide OperatorName;
    if p.Operator? {
      OperatorIsPlain(p.code);
    }
  }

  lemma {:induction false} FirstText(parts: seq<Component>)
    requires parts != []
    ensures Texts(parts)[0] == Text(parts[0], "")
  {
    hide Text;
    if |parts| > 1 {
      FirstText(parts[..|parts| - 1]);
    }
  }

  lemma {:induction false} TypesPrint(ts: seq<TypeTree>)
    requires AllOk(ts)
    ensures AllPrinted(PrintTypes(ts))
  {
    hide TypeOk, PrintType;
    if ts != [] {
      TypesPrint(ts[..|ts| - 1]);
      TypePrints(ts[|ts| - 1]);
    }
  }

  lemma PrintsSomething(e: Encoding)
    requires EncodingOk(e)
    ensures Print(e) != ""
  {
    NamePrints(e.name);
  }
}
