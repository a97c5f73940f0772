/** The statistics of a node as a JSON map. */
module Stats {
  import opened Wrappers
  import opened Octets
  import opened ConsoleParams
  import LastWins
  import Numerals

  datatype OneStat = OneStat(key: string, value: string)

  /** A value of the map: a number, a JSON value as the library parsed it, or text. */
  datatype StatValue<V> = Integer(number: I64) | Parsed(value: V) | Text(text: string)

  /** An empty value is shown as the text null; an integer that fits an i64 as a number; any other JSON
      text as what it stands for; and the rest as text without its quotes. */
  function Classify<V>(text: string, fromStr: string -> Option<V>): StatValue<V> {
    if text == "" then Text("null")
    else
      var number := Numerals.ParseInt(text, MIN_I64, MAX_I64);
      if number.Some? then Integer(number.value)
      else
        var value := fromStr(text);
        if value.Some? then Parsed(value.value) else Text(TrimQuotes(text))
  }

  function Pairs<V>(stats: seq<OneStat>, fromStr: string -> Option<V>): (p: seq<(string, StatValue<V>)>)
    ensures |p| == |stats|
    ensures forall i | 0 <= i < |p| :: p[i] == (stats[i].key, Classify(stats[i].value, fromStr))
  {
    seq(|stats|, i requires 0 <= i < |stats| => (stats[i].key, Classify(stats[i].value, fromStr)))
  }

  /** `stats_to_json` */
  function StatsToJson<V>(stats: seq<OneStat>, fromStr: string -> Option<V>): map<string, StatValue<V>> {
    LastWins.Collect(Pairs(stats, fromStr))
  }

  /** The map has exactly the keys that occur. */
  lemma StatKeysExact<V>(stats: seq<OneStat>, fromStr: string -> Option<V>, key: string)
    ensures key in StatsToJson(stats, fromStr) <==> exists i | 0 <= i < |stats| :: stats[i].key == key
  {
    var pairs := Pairs(stats, fromStr);
    LastWins.CollectedKeys(pairs);
    if i :| 0 <= i < |stats| && stats[i].key == key {
      assert pairs[i].0 == key;
    }
  }

  /** A key that occurs several times shows its last value. */
  lemma LastStatShown<V>(stats: seq<OneStat>, fromStr: string -> Option<V>, i: nat)
    requires i < |stats| && forall j | i < j < |stats| :: stats[j].key != stats[i].key
    ensures stats[i].key in StatsToJson(stats, fromStr)
    ensures StatsToJson(stats, fromStr)[stats[i].key] == Classify(stats[i].value, fromStr)
  {
    LastWins.CollectedValue(Pairs(stats, fromStr), i);
  }

  /** Each value is shown in exactly one way: as a number if it spells one that an i64 can hold, with any
      sign and any zeros in front; */
  lemma IntegerExactly<V>(text: string, fromStr: string -> Option<V>, n: I64)
    ensures Classify(text, fromStr) == Integer(n) <==> Numerals.Spells(text, n)
  {
    Numerals.ParseIntExact(text, MIN_I64, MAX_I64, n);
    hide Numerals.Spells;
    if text == "" {
      assert Numerals.ParseInt(text, MIN_I64, MAX_I64) == None;
    }
    hide Numerals.ParseInt;
  }

  /** as what the JSON library makes of it, if it is neither empty nor such a number; */
  lemma ParsedExactly<V>(text: string, fromStr: string -> Option<V>, v: V)
    ensures Classify(text, fromStr) == Parsed(v) <==>
            text != "" && fromStr(text) == Some(v) && !exists n: I64 :: Numerals.Spells(text, n)
  {
    SpelledOrNot(text);
    hide Numerals.Spells, Numerals.ParseInt;
  }

  /** and otherwise as text, without the quotes around it, or the word null if it is empty. */
  lemma TextExactly<V>(text: string, fromStr: string -> Option<V>, t: string)
    ensures Classify(text, fromStr) == Text(t) <==>
            if text == "" then t == "null"
            else fromStr(text) == None && t == TrimQuotes(text) && !exists n: I64 :: Numerals.Spells(text, n)
  {
    SpelledOrNot(text);
    hide Numerals.Spells, Numerals.ParseInt, TrimQuotes;
  }

  lemma SpelledOrNot(text: string)
    ensures Numerals.ParseInt(text, MIN_I64, MAX_I64).Some? <==> exists n: I64 :: Numerals.Spells(text, n)
  {
    forall n: I64 ensures Numerals.ParseInt(text, MIN_I64, MAX_I64) == Some(n) <==> Numerals.Spells(text, n) {
      Numerals.ParseIntExact(text, MIN_I64, MAX_I64, n);
    }
    var r := Numerals.ParseInt(text, MIN_I64, MAX_I64);
    hide Numerals.Spells, Numerals.ParseInt;
    if r.Some? {
      assert Numerals.Spells(text, r.value);
    }
  }

  /** Decimal text is shown as the number it denotes, exactly if an i64 can hold it. */
  lemma IntegersShown<V>(v: int, n: I64, fromStr: string -> Option<V>)
    ensures Classify(Numerals.PrintInt(v), fromStr) == Integer(n) <==> v == n
  {
    Numerals.IntRoundTrip(v, MIN_I64, MAX_I64);
    hide Numerals.ParseInt, Numerals.PrintInt;
  }
}
