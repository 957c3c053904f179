/** The load ops (src/match/MatcherEngine.cpp, lines 233-288): the value of the tag at which a scan for its key has
    stopped, and what it is for the ops of a clause. */
module TagLoads {
  import opened OpGraphs
  import opened TagScans
  import V = ValueDispatch

  function Signed32(bits: nat): int { if bits < 0x8000_0000 then bits else bits - 0x1_0000_0000 }

  /** doubleFromWideNumber: a mantissa above two bits that scale it */
  function WideNumber(bits: nat): real {
    var mantissa := (bits / 4 - 256) as real;
    match bits % 4
    case 0 => mantissa
    case 1 => mantissa / 10.0
    case 2 => mantissa / 100.0
    case _ => mantissa / 1000.0
  }

  /** The value of a tag whose value bits are at word `at`; `strings` is the text of the string at a byte address. */
  function ValueOf(kind: nat, bits: nat, at: int, strings: int -> string): V.TagValue {
    if kind == 0 && bits < 0x1_0000 then V.NarrowNumber(bits)
    else if kind == 1 && bits < 0x1_0000 then V.CodeValue(bits)
    else if kind == 2 then V.WideNumber(WideNumber(bits))
    else V.StringValue(strings(2 * at + Signed32(bits)))
  }

  /** The variables of the interpreter that hold a tag's value in several forms */
  class Values {
    var codeValue: nat
    var stringValue: int    // a byte address
    var doubleValue: real

    method LoadCode(engine: MatcherEngine, ghost kind: nat, ghost bits: nat) returns (matched: bool)
      requires kind < 4 && engine.Loads(kind, bits)
      modifies this`codeValue
      ensures matched <==> kind == 1
      ensures codeValue == engine.mem[engine.pTag - engine.valueOfs] && (kind < 2 ==> codeValue == bits)
    {
      codeValue := engine.mem[engine.pTag - engine.valueOfs];
      matched := engine.tagKey % 4 == 1;
    }

    /** Reads the upper half of the offset behind the lower one if the value is wide, and the lower one again otherwise. */
    method LoadString(engine: MatcherEngine, ghost kind: nat, ghost bits: nat) returns (matched: bool)
      requires kind < 4 && engine.Loads(kind, bits)
      modifies this`stringValue
      ensures matched <==> kind == 3
      ensures matched ==> stringValue == 2 * (engine.pTag - engine.valueOfs) + Signed32(bits)
      ensures (Signed32(bits) - bits) % 0x1_0000_0000 == 0 && (bits < 0x1_0000_0000 ==> -0x8000_0000 <= Signed32(bits) < 0x8000_0000)
    {
      var pVal := engine.pTag - engine.valueOfs;
      matched := engine.tagKey % 4 == 3;
      var rel := engine.mem[pVal] + 0x1_0000 * engine.mem[pVal + if matched then 1 else 0];
      stringValue := 2 * pVal + Signed32(rel);
    }

    method LoadNum(engine: MatcherEngine, ghost kind: nat, ghost bits: nat) returns (matched: bool)
      requires kind < 4 && engine.Loads(kind, bits)
      modifies this`doubleValue
      ensures matched <==> kind == 0 || kind == 2
      ensures doubleValue == match kind { case 0 => (bits - 256) as real case 2 => WideNumber(bits) case _ => old(doubleValue) }
      ensures WideNumber(bits) * [1.0, 10.0, 100.0, 1000.0][bits % 4] == (bits / 4 - 256) as real
    {
      var pVal, kindBits := engine.pTag - engine.valueOfs, engine.tagKey % 4;
      if kindBits == 0 {
        var stored: int := engine.mem[pVal];
        doubleValue := (stored - 256) as real;
        matched := true;
      } else if kindBits == 2 {
        doubleValue := WideNumber(engine.mem[pVal] + 0x1_0000 * engine.mem[pVal + 1]);
        matched := true;
      } else {
        matched := false;
      }
    }
  }

  /** The load ops match, in the dispatch of values, exactly on the kinds for which they match in memory, and leave there
      what they read. */
  lemma LoadsAreSteps(kind: nat, bits: nat, at: int, strings: int -> string, lib: V.Library, r: V.Registers, n: OpNode)
    requires kind < 4 && bits < (if kind < 2 then 0x1_0000 else 0x1_0000_0000)
    ensures var (v, matched, r') := (ValueOf(kind, bits, at, strings), V.Step(lib, ValueOf(kind, bits, at, strings), r, n).0,
                                     V.Step(lib, ValueOf(kind, bits, at, strings), r, n).1);
            && (n.opcode == LOAD_CODE ==> (matched <==> kind == 1) && (kind < 2 ==> r'.code == bits))
            && (n.opcode == LOAD_STRING ==> (matched <==> kind == 3) && (kind == 3 ==> r'.str == strings(2 * at + Signed32(bits))))
            && (n.opcode == LOAD_NUM ==>
                  && (matched <==> kind == 0 || kind == 2)
                  && r'.num == match kind { case 0 => V.Some((bits - 256) as real) case 2 => V.Some(WideNumber(bits)) case _ => r.num })
  {
    hide WideNumber, Signed32;
  }
}
