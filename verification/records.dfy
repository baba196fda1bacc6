/** Search records: the chosen unfold vector with the direction that led
    to it, their JSON and key forms, and the mutation loop of the mapping
    generator. */
module Records {
  import opened Base
  import opened Dicts
  import opened UnfoldChoice

  /** `unfold_choice`: the pair (bit-vector, move direction). */
  datatype Choice = Choice(bits: BitVec, direction: int)

  datatype Record = Record(unfoldChoice: Choice)

  /** The JSON values a record is written as. */
  datatype Json =
    | JInt(i: int)
    | JArray(items: seq<Json>)
    | JObject(fields: seq<(string, Json)>)

  function BitsToJson(bits: BitVec): (r: seq<Json>)
    ensures |r| == |bits| && forall i :: 0 <= i < |bits| ==> r[i] == JInt(bits[i])
  {
    seq(|bits|, i requires 0 <= i < |bits| => JInt(bits[i]))
  }

  /** `to_json`: `{"unfold": [bits, direction]}`. */
  function ToJson(r: Record): Json
  {
    JObject([("unfold", JArray([JArray(BitsToJson(r.unfoldChoice.bits)), JInt(r.unfoldChoice.direction)]))])
  }

  function BitsFromJson(items: seq<Json>): Option<BitVec>
  {
    if |items| == 0 then Some([])
    else match (items[0], BitsFromJson(items[1..]))
      case (JInt(b), Some(rest)) => if 0 <= b <= 1 then Some([b as Bit] + rest) else None
      case _ => None
  }

  /** `record_from_json`: look up `"unfold"` (a missing key is `None`, the
      `KeyError`; a later field of the same name wins, as in a dict), and
      read it as a choice. */
  function RecordFromJson(obj: Json): Option<Record>
  {
    match obj
    case JObject(fields) =>
      var d := DictOf(fields);
      if "unfold" !in d then None
      else
        (match d["unfold"]
         case JArray(pair) =>
           if |pair| != 2 then None
           else
             (match (pair[0], pair[1])
              case (JArray(items), JInt(dir)) =>
                (match BitsFromJson(items)
                 case Some(bits) => Some(Record(Choice(bits, dir)))
                 case None => None)
              case _ => None)
         case _ => None)
    case _ => None
  }

  lemma {:induction false} BitsJsonRoundTrip(bits: BitVec)
    ensures BitsFromJson(BitsToJson(bits)) == Some(bits)
  {
    if |bits| > 0 {
      BitsJsonRoundTrip(bits[1..]);
      assert BitsToJson(bits)[1..] == BitsToJson(bits[1..]);
      assert [bits[0]] + bits[1..] == bits;
    }
  }

  /** Reading back the JSON form of a record gives the record. */
  lemma JsonRoundTrip(r: Record)
    ensures RecordFromJson(ToJson(r)) == Some(r)
  {
    BitsJsonRoundTrip(r.unfoldChoice.bits);
    var fields := [("unfold", JArray([JArray(BitsToJson(r.unfoldChoice.bits)), JInt(r.unfoldChoice.direction)]))];
    assert LastFor(fields, 0);
  }

  // ---------------------------------------------------------------------
  // Key

  function BitChar(b: Bit): char
  {
    if b == 1 then '1' else '0'
  }

  /** `",".join(map(str, bits))`. */
  function JoinBits(bits: BitVec): string
  {
    if |bits| == 0 then ""
    else if |bits| == 1 then [BitChar(bits[0])]
    else [BitChar(bits[0]), ','] + JoinBits(bits[1..])
  }

  /** `as_key`: `"(" + ",".join(map(str, bits)) + ")"`. */
  function AsKey(r: Record): string
  {
    "(" + JoinBits(r.unfoldChoice.bits) + ")"
  }

  function CharBit(c: char): Option<Bit>
  {
    if c == '1' then Some(1) else if c == '0' then Some(0) else None
  }

  /** Reads a comma-separated list of single digits. */
  function SplitBits(s: string): Option<BitVec>
  {
    if |s| == 0 then Some([])
    else if |s| == 1 then
      (match CharBit(s[0]) case Some(b) => Some([b]) case None => None)
    else if s[1] != ',' then None
    else
      (match (CharBit(s[0]), SplitBits(s[2..]))
       case (Some(b), Some(rest)) => if |rest| == 0 then None else Some([b] + rest)
       case _ => None)
  }

  /** Reads a key back into the bit-vector it was made from. */
  function KeyBits(key: string): Option<BitVec>
  {
    if |key| < 2 || key[0] != '(' || key[|key| - 1] != ')' then None
    else SplitBits(key[1..|key| - 1])
  }

  lemma {:induction false} JoinSplit(bits: BitVec)
    ensures SplitBits(JoinBits(bits)) == Some(bits)
  {
    if |bits| == 1 {
      assert CharBit(BitChar(bits[0])) == Some(bits[0]);
      assert [bits[0]] == bits;
    } else if |bits| >= 2 {
      var s := JoinBits(bits);
      assert CharBit(BitChar(bits[0])) == Some(bits[0]);
      JoinSplit(bits[1..]);
      assert s[2..] == JoinBits(bits[1..]);
      assert [bits[0]] + bits[1..] == bits;
    }
  }

  /** The key of a record determines its bit-vector. */
  lemma KeyRoundTrip(r: Record)
    ensures KeyBits(AsKey(r)) == Some(r.unfoldChoice.bits)
  {
    var k := AsKey(r);
    JoinSplit(r.unfoldChoice.bits);
    assert k[1..|k| - 1] == JoinBits(r.unfoldChoice.bits);
  }

  /** Two records share a key exactly when they hold the same bit-vector;
      the direction does not enter the key. */
  lemma KeyInjective(r1: Record, r2: Record)
    ensures AsKey(r1) == AsKey(r2) <==> r1.unfoldChoice.bits == r2.unfoldChoice.bits
  {
    KeyRoundTrip(r1);
    KeyRoundTrip(r2);
  }

  // ---------------------------------------------------------------------
  // Mutation

  /** `get_records_mutate_one_generator`: `successors` is what the
      neighbour source `get_next(unfold[0], to_mutate)` yields, in order,
      until it stops. Each of the `steps` iterations takes the next value
      if there is one and yields a record only then; an exhausted source
      leaves the current choice and yields nothing. */
  method MutateOne(record: Record, successors: seq<Choice>, steps: int) returns (out: seq<Record>)
    ensures |out| == (if steps <= 0 then 0 else if steps < |successors| then steps else |successors|)
    ensures forall i :: 0 <= i < |out| ==> out[i] == Record(successors[i])
  {
    var unfold := record.unfoldChoice;
    var next := 0;
    var hasMutate := false;
    out := [];
    var s := 0;
    while s < steps
      invariant 0 <= s <= (if steps > 0 then steps else 0)
      invariant next == (if s < |successors| then s else |successors|)
      invariant |out| == next
      invariant forall i :: 0 <= i < |out| ==> out[i] == Record(successors[i])
      invariant !hasMutate
    {
      if next < |successors| {
        unfold := successors[next];
        next := next + 1;
        hasMutate := true;
      }
      if hasMutate {
        out := out + [Record(unfold)];
      }
      hasMutate := false;
      s := s + 1;
    }
  }
}
