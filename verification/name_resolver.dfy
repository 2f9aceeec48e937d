/** Names for reported functions: the best symbol's, demangled on request, or one made from the address. */
module NameResolvers {
  import opened Types
  import opened ElfImages

  const SYNTHETIC_PREFIX := "sub_"

  /** Global symbols win over weak ones, those over local ones, and those over any other binding. */
  function BindingRank(binding: nat): nat {
    if binding == 1 then 3 else if binding == 2 then 2 else if binding == 0 then 1 else 0
  }

  predicate NamesFunctionAt(s: ElfSymbol, a: Address) {
    s.IsFunction() && s.IsDefined() && s.HasName() && s.value == a
  }

  /** The symbol whose name a function at `a` gets. */
  function Chosen(symbols: seq<ElfSymbol>, a: Address): Option<ElfSymbol> {
    if symbols == [] then None else
      var before, last := Chosen(symbols[..|symbols| - 1], a), symbols[|symbols| - 1];
      if NamesFunctionAt(last, a)
         && (before.None? || BindingRank(last.Binding()) > BindingRank(before.value.Binding()))
      then Some(last) else before
  }

  /** The first of the highest rank. */
  ghost predicate IsBest(symbols: seq<ElfSymbol>, a: Address, i: nat) {
    && i < |symbols| && NamesFunctionAt(symbols[i], a)
    && (forall j :: 0 <= j < |symbols| && NamesFunctionAt(symbols[j], a) ==>
          BindingRank(symbols[j].Binding()) <= BindingRank(symbols[i].Binding()))
    && (forall j :: 0 <= j < i && NamesFunctionAt(symbols[j], a) ==>
          BindingRank(symbols[j].Binding()) < BindingRank(symbols[i].Binding()))
  }

  lemma {:induction false} ChosenIsBest(symbols: seq<ElfSymbol>, a: Address)
    ensures Chosen(symbols, a).None? ==> forall s :: s in symbols ==> !NamesFunctionAt(s, a)
    ensures Chosen(symbols, a).Some? ==>
      exists i: nat :: i < |symbols| && IsBest(symbols, a, i) && symbols[i] == Chosen(symbols, a).value
  {
    hide NamesFunctionAt, BindingRank, IsBest;
    if symbols != [] {
      var init, last := symbols[..|symbols| - 1], symbols[|symbols| - 1];
      assert symbols == init + [last];
      ChosenIsBest(init, a);
      if Chosen(init, a).Some? {
        var i: nat :| i < |init| && IsBest(init, a, i) && init[i] == Chosen(init, a).value;
        BestOrLast(init, last, a, i);
      } else if NamesFunctionAt(last, a) {
        LastIsBest(init, last, a);
      }
    }
  }

  lemma BestOrLast(init: seq<ElfSymbol>, last: ElfSymbol, a: Address, i: nat)
    requires IsBest(init, a, i)
    ensures i < |init|
    ensures if NamesFunctionAt(last, a) && BindingRank(last.Binding()) > BindingRank(init[i].Binding())
            then IsBest(init + [last], a, |init|) else IsBest(init + [last], a, i)
  {
    hide NamesFunctionAt, BindingRank;
  }

  lemma LastIsBest(init: seq<ElfSymbol>, last: ElfSymbol, a: Address)
    requires NamesFunctionAt(last, a) && forall s :: s in init ==> !NamesFunctionAt(s, a)
    ensures IsBest(init + [last], a, |init|)
  {
    hide NamesFunctionAt, BindingRank;
  }

  // ------------------------------------------------------------------ what that means

  /** A named, defined function symbol at `a`. */
  ghost predicate MayName(s: ElfSymbol, a: Address) {
    s.info % 16 in {2, 10} && 0 < s.sectionIndex < 0xff00 && s.name != "" && s.value == a
  }

  /** Global bindings, numbered 1, are stronger than weak ones, 2, those than local ones, 0, and those than all
      others. */
  ghost predicate IsWeaker(p: ElfSymbol, q: ElfSymbol) {
    match q.info / 16
    case 1 => p.info / 16 != 1
    case 2 => p.info / 16 != 1 && p.info / 16 != 2
    case 0 => p.info / 16 > 2
    case _ => false
  }

  /** The first of the strongest symbols that may name a function at `a`. */
  ghost predicate IsStrongest(symbols: seq<ElfSymbol>, a: Address, i: nat) {
    && i < |symbols| && MayName(symbols[i], a)
    && (forall j :: 0 <= j < |symbols| && MayName(symbols[j], a) ==> !IsWeaker(symbols[i], symbols[j]))
    && (forall j :: 0 <= j < i && MayName(symbols[j], a) ==> IsWeaker(symbols[j], symbols[i]))
  }

  lemma RanksAre(p: ElfSymbol, q: ElfSymbol, a: Address)
    ensures BindingRank(p.Binding()) < BindingRank(q.Binding()) <==> IsWeaker(p, q)
    ensures NamesFunctionAt(p, a) <==> MayName(p, a)
  {
  }

  lemma BestIsStrongest(symbols: seq<ElfSymbol>, a: Address, i: nat)
    ensures IsBest(symbols, a, i) <==> IsStrongest(symbols, a, i)
  {
    hide BindingRank, MayName, NamesFunctionAt, IsWeaker;
    if i < |symbols| {
      forall j | 0 <= j < |symbols|
        ensures BindingRank(symbols[j].Binding()) <= BindingRank(symbols[i].Binding()) <==>
                !IsWeaker(symbols[i], symbols[j])
        ensures BindingRank(symbols[j].Binding()) < BindingRank(symbols[i].Binding()) <==>
                IsWeaker(symbols[j], symbols[i])
        ensures NamesFunctionAt(symbols[j], a) <==> MayName(symbols[j], a)
      {
        RanksAre(symbols[i], symbols[j], a);
        RanksAre(symbols[j], symbols[i], a);
      }
    }
  }

  /** A function is named by the strongest symbol at its start, demangled on request, and by its address when
      there is none. */
  lemma NamesAreOfStrongest(naming: Naming, a: Address)
    ensures naming.HasSymbol(a) <==> exists s :: s in naming.symbols && MayName(s, a)
    ensures naming.HasSymbol(a) ==> exists i: nat ::
      IsStrongest(naming.symbols, a, i) && i < |naming.symbols| &&
      naming.NameFor(a) == if naming.enabled then naming.demangle(naming.symbols[i].name) else naming.symbols[i].name
    ensures !naming.HasSymbol(a) ==> naming.NameFor(a) == "sub_" + Hex(a)
  {
    hide BindingRank, MayName, NamesFunctionAt, IsWeaker, IsBest, IsStrongest, Hex;
    var symbols := naming.symbols;
    ChosenIsBest(symbols, a);
    forall s | s in symbols ensures NamesFunctionAt(s, a) <==> MayName(s, a) {
      RanksAre(s, s, a);
    }
    if Chosen(symbols, a).Some? {
      var i: nat :| i < |symbols| && IsBest(symbols, a, i) && symbols[i] == Chosen(symbols, a).value;
      BestIsStrongest(symbols, a, i);
      StrongestMayName(symbols, a, i);
    }
  }

  lemma StrongestMayName(symbols: seq<ElfSymbol>, a: Address, i: nat)
    requires IsStrongest(symbols, a, i)
    ensures i < |symbols| && symbols[i] in symbols && MayName(symbols[i], a)
  {
  }

  // ------------------------------------------------------------------ hexadecimal

  function HexDigit(d: nat): (c: char)
    requires d < 16
    ensures '0' <= c <= '9' || 'A' <= c <= 'F'
  {
    if d < 10 then '0' + d as char else 'A' + (d - 10) as char
  }

  function HexDigits(n: nat): string {
    if n == 0 then "" else HexDigits(n / 16) + [HexDigit(n % 16)]
  }

  function Hex(n: nat): string { if n == 0 then "0" else HexDigits(n) }

  function HexValue(s: string): nat {
    if s == "" then 0 else
      var c := s[|s| - 1];
      16 * HexValue(s[..|s| - 1])
      + if '0' <= c <= '9' then c as int - '0' as int else if 'A' <= c <= 'F' then c as int - 'A' as int + 10 else 0
  }

  lemma {:induction false} HexDigitsValue(n: nat)
    ensures HexValue(HexDigits(n)) == n
  {
    if n > 0 {
      HexDigitsValue(n / 16);
      assert HexDigits(n)[..|HexDigits(n)| - 1] == HexDigits(n / 16);
    }
  }

  function SyntheticName(a: Address): string { SYNTHETIC_PREFIX + Hex(a) }

  /** A made-up name is a prefix and the address in upper-case hexadecimal without leading zeros. */
  lemma SyntheticNameIs(a: Address)
    ensures var name := SyntheticName(a);
      && |name| > 4 && name[..4] == "sub_" && HexValue(name[4..]) == a
      && (forall i :: 4 <= i < |name| ==> '0' <= name[i] <= '9' || 'A' <= name[i] <= 'F')
      && (name[4] == '0' ==> a == 0)
  {
    var name := SyntheticName(a);
    assert name[..4] == "sub_" && name[4..] == Hex(a);
    HexIsInverted(a);
    HexShape(a);
    forall i | 4 <= i < |name| ensures '0' <= name[i] <= '9' || 'A' <= name[i] <= 'F' {
      assert name[i] == Hex(a)[i - 4];
    }
    assert name[4] == Hex(a)[0];
  }

  lemma {:induction false} HexShape(n: nat)
    ensures |Hex(n)| > 0 && (Hex(n)[0] == '0' ==> n == 0)
    ensures forall i :: 0 <= i < |Hex(n)| ==> '0' <= Hex(n)[i] <= '9' || 'A' <= Hex(n)[i] <= 'F'
  {
    if n >= 16 {
      HexShape(n / 16);
    } else if n > 0 {
      assert HexDigits(n) == [HexDigit(n)];
    }
  }

  /** Functions without a symbol never share a name. */
  lemma SyntheticNamesDiffer(a: Address, b: Address)
    requires SyntheticName(a) == SyntheticName(b)
    ensures a == b
  {
    hide HexDigits, HexValue;
    assert Hex(a) == SyntheticName(a)[|SYNTHETIC_PREFIX|..] && Hex(b) == SyntheticName(b)[|SYNTHETIC_PREFIX|..];
    HexIsInverted(a);
    HexIsInverted(b);
  }

  lemma HexIsInverted(n: nat)
    ensures HexValue(Hex(n)) == n
  {
    if n == 0 {
      assert "0"[..0] == "";
    } else {
      HexDigitsValue(n);
    }
  }

  // ------------------------------------------------------------------ the resolver

  /** What names depend on. */
  datatype Naming = Naming(symbols: seq<ElfSymbol>, demangle: string -> string, enabled: bool)
  {
    predicate HasSymbol(a: Address) { Chosen(symbols, a).Some? }

    function NameFor(a: Address): string {
      match Chosen(symbols, a)
      case None => SyntheticName(a)
      case Some(s) => if enabled then demangle(s.name) else s.name
    }
  }

  class NameResolver {
    const demangle: string -> string
    const enabled: bool
    const nameByAddress: map<Address, string>

    ghost predicate Resolves(naming: Naming) {
      && demangle == naming.demangle && enabled == naming.enabled
      && forall a: Address ::
           && (a in nameByAddress <==> naming.HasSymbol(a))
           && (a in nameByAddress ==> nameByAddress[a] == Chosen(naming.symbols, a).value.name)
    }

    constructor (symbols: seq<ElfSymbol>, demangle: string -> string, enabled: bool)
      ensures Resolves(Naming(symbols, demangle, enabled))
    {
      hide Chosen, BindingRank;
      var names: map<Address, string>, ranks: map<Address, nat> := map[], map[];
      forall a: Address ensures NamesMatch(symbols[..0], names, ranks, a) {
        NothingNamed(a);
      }
      for i := 0 to |symbols|
        invariant forall a: Address :: NamesMatch(symbols[..i], names, ranks, a)
      {
        var sym := symbols[i];
        ghost var next, was, wasRanks := symbols[..i + 1], names, ranks;
        assert NamesMatch(symbols[..i], names, ranks, sym.value);
        if sym.IsFunction() && sym.IsDefined() && sym.HasName() {
          var rank := BindingRank(sym.Binding());
          if sym.value !in ranks || rank > ranks[sym.value] {
            names := names[sym.value := sym.name];
            ranks := ranks[sym.value := rank];
          }
        }
        assert names == NamesAfter(was, wasRanks, sym, sym.name);
        assert ranks == NamesAfter(wasRanks, wasRanks, sym, BindingRank(sym.Binding()));
        forall a: Address ensures NamesMatch(next, names, ranks, a) {
          NameOne(symbols, i, was, wasRanks, a);
        }
      }
      assert symbols[..|symbols|] == symbols;
      forall a: Address
        ensures a in names <==> Chosen(symbols, a).Some?
        ensures a in names ==> names[a] == Chosen(symbols, a).value.name
      {
        assert NamesMatch(symbols, names, ranks, a);
      }
      this.demangle := demangle;
      this.enabled := enabled;
      nameByAddress := names;
    }

    method HasSymbol(a: Address, ghost naming: Naming) returns (r: bool)
      requires Resolves(naming)
      ensures r <==> naming.HasSymbol(a)
    {
      return a in nameByAddress;
    }

    method NameFor(a: Address, ghost naming: Naming) returns (name: string)
      requires Resolves(naming)
      ensures name == naming.NameFor(a)
    {
      if a !in nameByAddress {
        name := MakeSyntheticName(a);
      } else if enabled {
        name := demangle(nameByAddress[a]);
      } else {
        name := nameByAddress[a];
      }
    }

    /** Sixteen at a time, least significant digit first, each put in front. */
    method MakeSyntheticName(a: Address) returns (name: string)
      ensures name == SyntheticName(a)
    {
      if a == 0 {
        return SYNTHETIC_PREFIX + "0";
      }
      var out, value: nat := "", a;
      while value != 0
        invariant HexDigits(a) == HexDigits(value) + out
      {
        assert HexDigits(value) + out == HexDigits(value / 16) + ([HexDigit(value % 16)] + out);
        out := [HexDigit(value % 16)] + out;
        value := value / 16;
      }
      return SYNTHETIC_PREFIX + out;
    }
  }

  /** The tables say of an address what the symbols read so far do. */
  ghost predicate NamesMatch(symbols: seq<ElfSymbol>, names: map<Address, string>, ranks: map<Address, nat>,
                             a: Address) {
    var chosen := Chosen(symbols, a);
    && (a in names <==> chosen.Some?) && (a in ranks <==> chosen.Some?)
    && (chosen.Some? ==> names[a] == chosen.value.name && ranks[a] == BindingRank(chosen.value.Binding()))
  }

  /** A table once a symbol was read that replaces only symbols of lower rank. */
  ghost function NamesAfter<T>(table: map<Address, T>, ranks: map<Address, nat>, s: ElfSymbol,
                               entry: T): map<Address, T> {
    if NamesFunctionAt(s, s.value) && (s.value !in ranks || BindingRank(s.Binding()) > ranks[s.value])
    then table[s.value := entry] else table
  }

  lemma NameOne(symbols: seq<ElfSymbol>, i: nat, names: map<Address, string>, ranks: map<Address, nat>, a: Address)
    requires i < |symbols|
    requires NamesMatch(symbols[..i], names, ranks, a) && NamesMatch(symbols[..i], names, ranks, symbols[i].value)
    ensures var s := symbols[i];
      NamesMatch(symbols[..i + 1], NamesAfter(names, ranks, s, s.name),
                 NamesAfter(ranks, ranks, s, BindingRank(s.Binding())), a)
  {
    hide BindingRank;
    assert symbols[..i + 1][..i] == symbols[..i];
  }

  lemma NothingNamed(a: Address)
    ensures NamesMatch([], map[], map[], a)
  {
  }
}
