/** The memoised decoder the CFG passes query, and the word patterns they test. */
module InstructionCaches {
  import opened Types
  import opened Bits
  import opened Code
  import opened CodeMaps

  /** What is remembered about one address; `instruction` means nothing unless `valid`. */
  datatype Entry = Entry(valid: bool, instruction: Instruction)

  datatype Memory = Memory(entries: map<Address, Entry>, decoded: nat)

  const UNDECODED := Entry(false, Instruction(0, INSTRUCTION_SIZE, Sequential, false, 0))

  /** Everything remembered is what a fresh decode would say, and the counter is the number of
      addresses remembered as decodable. */
  ghost predicate Consistent(code: CodeImage, m: Memory) {
    && (forall a :: a in m.entries ==> Recalled(m.entries[a]) == code.Insn(a))
    && m.decoded == |ValidKeys(m.entries)|
  }

  function Recalled(e: Entry): Option<Instruction> { if e.valid then Some(e.instruction) else None }

  ghost function ValidKeys(entries: map<Address, Entry>): set<Address> {
    set a | a in entries && entries[a].valid
  }

  /** The memory after one query: misaligned addresses leave no trace, known ones change nothing. */
  function Remember(code: CodeImage, m: Memory, a: Address): Memory {
    if !Aligned(a) || a in m.entries then m else
      match code.Insn(a)
      case Some(insn) => Memory(m.entries[a := Entry(true, insn)], m.decoded + 1)
      case None => Memory(m.entries[a := UNDECODED], m.decoded)
  }

  function Answer(code: CodeImage, m: Memory, a: Address): Option<Instruction> {
    if !Aligned(a) then None
    else if a in m.entries then Recalled(m.entries[a])
    else code.Insn(a)
  }

  lemma NewEntryKeys(entries: map<Address, Entry>, a: Address, e: Entry)
    requires a !in entries
    ensures ValidKeys(entries[a := e]) == ValidKeys(entries) + if e.valid then {a} else {}
    ensures |ValidKeys(entries[a := e])| == |ValidKeys(entries)| + if e.valid then 1 else 0
  {
    var before, after := ValidKeys(entries), ValidKeys(entries[a := e]);
    assert after == before + if e.valid then {a} else {};
  }

  lemma QueryIsFresh(code: CodeImage, m: Memory, a: Address)
    requires Consistent(code, m)
    ensures Answer(code, m, a) == code.Insn(a)
    ensures Consistent(code, Remember(code, m, a))
    ensures ValidKeys(Remember(code, m, a).entries) ==
            ValidKeys(m.entries) + if code.Insn(a).Some? then {a} else {}
  {
    if Aligned(a) {
      if a in m.entries {
        assert Recalled(m.entries[a]) == code.Insn(a);
      } else {
        var insn := code.Insn(a);
        NewEntryKeys(m.entries, a, if insn.Some? then Entry(true, insn.value) else UNDECODED);
      }
    }
  }

  function Replay(code: CodeImage, m: Memory, queries: seq<Address>): Memory {
    if queries == [] then m else
      Remember(code, Replay(code, m, queries[..|queries| - 1]), queries[|queries| - 1])
  }

  /**
   Over any sequence of queries from a cold start, the next answer is the one a fresh decode would
   give, and the counter is the number of distinct decodable addresses that were asked for.
   */
  lemma ReplayIsTransparent(code: CodeImage, queries: seq<Address>, next: Address)
    ensures var m := Replay(code, Memory(map[], 0), queries);
      && Consistent(code, m)
      && Answer(code, m, next) == code.Insn(next)
      && m.decoded == |set a | a in queries && code.Insn(a).Some?|
  {
    ReplayKeys(code, queries);
    QueryIsFresh(code, Replay(code, Memory(map[], 0), queries), next);
  }

  lemma {:induction false} ReplayKeys(code: CodeImage, queries: seq<Address>)
    ensures var m := Replay(code, Memory(map[], 0), queries);
      && Consistent(code, m)
      && ValidKeys(m.entries) == set a | a in queries && code.Insn(a).Some?
  {
    if queries == [] {
      assert ValidKeys(map[]) == {};
    } else {
      var init, last := queries[..|queries| - 1], queries[|queries| - 1];
      ReplayKeys(code, init);
      hide Remember, Consistent, CodeImage.Insn, ValidKeys;
      QueryIsFresh(code, Replay(code, Memory(map[], 0), init), last);
      assert queries == init + [last];
    }
  }

  class InstructionCache {
    const codeMap: CodeMap
    const decode: Decoder
    var cache: map<Address, Entry>
    var decoded: nat

    constructor (codeMap: CodeMap, decode: Decoder)
      requires codeMap.Valid() && IsDecoder(decode)
      ensures this.codeMap == codeMap && this.decode == decode
      ensures Valid() && Contents() == Memory(map[], 0)
    {
      this.codeMap := codeMap;
      this.decode := decode;
      cache := map[];
      decoded := 0;
      new;
      assert ValidKeys(cache) == {};
    }

    ghost function Image(): CodeImage { CodeImage(codeMap.regions, decode) }

    ghost function Contents(): Memory
      reads this
    {
      Memory(cache, decoded)
    }

    ghost predicate Valid()
      reads this
    {
      Image().Valid() && Consistent(Image(), Contents())
    }

    lemma ImageIsValid()
      requires Valid()
      ensures Image().Valid()
    {
    }

    /** Decode the word at `a`, from memory when it was asked for before. */
    method At(a: Address) returns (insn: Option<Instruction>)
      requires Valid()
      modifies this
      ensures Valid()
      ensures insn == Image().Insn(a)
      ensures Contents() == Remember(Image(), old(Contents()), a)
    {
      QueryIsFresh(Image(), Contents(), a);
      if !Aligned(a) {
        return None;
      }
      if a in cache {
        var known := cache[a];
        return if known.valid then Some(known.instruction) else None;
      }
      var bytes := codeMap.At(a);
      if bytes.None? || |bytes.value| < INSTRUCTION_SIZE {
        cache := cache[a := UNDECODED];
        return None;
      }
      var raw := decode(bytes.value, a);
      if raw.None? {
        cache := cache[a := UNDECODED];
        return None;
      }
      cache := cache[a := Entry(true, raw.value)];
      decoded := decoded + 1;
      return raw;
    }

    method IsExecutable(a: Address) returns (r: bool)
      requires Valid()
      ensures r <==> Image().Contains(a)
    {
      r := codeMap.Contains(a);
    }
  }

  // ------------------------------------------------------------------ word patterns

  method ReadWord(codeMap: CodeMap, a: Address) returns (word: Option<nat>)
    requires codeMap.Valid()
    ensures word == WordAt(codeMap.regions, a)
  {
    var p := codeMap.At(a);
    if p.None? || |p.value| < INSTRUCTION_SIZE {
      return None;
    }
    var b := p.value;
    OrOfFour(b);
    return Some(Or(Or(Or(b[0], Shl(b[1], 8)), Shl(b[2], 16)), Shl(b[3], 24)));
  }

  /** Padding between functions: no whole word, a zero word, or a NOP. */
  method IsPadding(codeMap: CodeMap, a: Address) returns (r: bool)
    requires codeMap.Valid()
    ensures r <==> IsPaddingWord(codeMap.regions, a)
  {
    var word := ReadWord(codeMap, a);
    if word.None? {
      return true;
    }
    return word.value == ZERO_WORD || word.value == NOP_WORD;
  }

  /** A word no execution continues into: none at all, or zero. */
  method IsHardStop(codeMap: CodeMap, a: Address) returns (r: bool)
    requires codeMap.Valid()
    ensures r <==> IsHardStopWord(codeMap.regions, a)
  {
    var word := ReadWord(codeMap, a);
    if word.None? {
      return true;
    }
    return word.value == ZERO_WORD;
  }
}
