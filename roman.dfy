/** intToRoman of main.go:143-176: greedy encoding over a 13-entry table, largest
    value first, and how it fits the decoder of parseNumber. */
module RomanNumerals {
  import opened Results
  import opened Text
  import opened Numbers

  type Positive = n: int | n >= 1 witness 1

  /** One row of the table: a value and the symbol that spells it. */
  datatype Numeral = Numeral(value: Positive, symbol: string)

  /** The table of main.go:148-165, in decreasing order of value. */
  const Table: seq<Numeral> := [
    Numeral(1000, "M"), Numeral(900, "CM"), Numeral(500, "D"), Numeral(400, "CD"),
    Numeral(100, "C"), Numeral(90, "XC"), Numeral(50, "L"), Numeral(40, "XL"),
    Numeral(10, "X"), Numeral(9, "IX"), Numeral(5, "V"), Numeral(4, "IV"),
    Numeral(1, "I")
  ]

  /** The rows the greedy encoder emits for `n`, starting at row `k`: as many
      copies of row k as fit, then the rows after it. */
  function Greedy(n: nat, k: nat): seq<Numeral>
    requires k <= |Table|
    decreases |Table| - k, n
  {
    if k == |Table| then []
    else if n >= Table[k].value then [Table[k]] + Greedy(n - Table[k].value, k)
    else Greedy(n, k + 1)
  }

  /** The text of a sequence of rows. */
  function Spell(ns: seq<Numeral>): string {
    if ns == [] then "" else ns[0].symbol + Spell(ns[1..])
  }

  /** The total value of a sequence of rows. */
  function Total(ns: seq<Numeral>): int {
    if ns == [] then 0 else ns[0].value + Total(ns[1..])
  }

  /** What intToRoman returns for `n`. */
  function IntToRomanSpec(n: int): Result<string> {
    if n <= 0 || n > 3999 then Err(NotRepresentable(n)) else Ok(Spell(Greedy(n, 0)))
  }

  /** Emitting one more row appends its symbol to the text. */
  lemma {:induction false} SpellAppend(ns: seq<Numeral>, x: Numeral)
    ensures Spell(ns + [x]) == Spell(ns) + x.symbol
  {
    if ns != [] {
      var rest := ns[1..];
      assert (ns + [x])[0] == ns[0] && (ns + [x])[1..] == rest + [x];
      SpellAppend(rest, x);
    }
  }

  /** Emitting one more row adds its value to the total. */
  lemma {:induction false} TotalAppend(ns: seq<Numeral>, x: Numeral)
    ensures Total(ns + [x]) == Total(ns) + x.value
  {
    if ns != [] {
      var rest := ns[1..];
      assert (ns + [x])[0] == ns[0] && (ns + [x])[1..] == rest + [x];
      TotalAppend(rest, x);
    }
  }

  /** One pass of the inner loop of intToRoman keeps the emitted rows a prefix
      of the greedy encoding. */
  lemma EmitOne(emitted: seq<Numeral>, rest: nat, k: nat, goal: seq<Numeral>)
    requires k < |Table| && rest >= Table[k].value
    requires emitted + Greedy(rest, k) == goal
    ensures (emitted + [Table[k]]) + Greedy(rest - Table[k].value, k) == goal
  {
    assert Greedy(rest, k) == [Table[k]] + Greedy(rest - Table[k].value, k);
  }

  /** intToRoman (main.go:143-176) with its two nested loops. */
  method IntToRoman(num: int) returns (r: Result<string>)
    ensures r == IntToRomanSpec(num)
  {
    if num <= 0 || num > 3999 {
      return Err(NotRepresentable(num));
    }
    var rest := num;
    var roman := "";
    ghost var emitted: seq<Numeral> := [];
    for k := 0 to |Table|
      invariant rest >= 0
      invariant emitted + Greedy(rest, k) == Greedy(num, 0)
      invariant roman == Spell(emitted)
      invariant rest + Total(emitted) == num
    {
      var v := Table[k];
      while rest >= v.value
        invariant rest >= 0
        invariant emitted + Greedy(rest, k) == Greedy(num, 0)
        invariant roman == Spell(emitted)
        invariant rest + Total(emitted) == num
      {
        SpellAppend(emitted, v);
        TotalAppend(emitted, v);
        EmitOne(emitted, rest, k, Greedy(num, 0));
        roman := roman + v.symbol;
        rest := rest - v.value;
        emitted := emitted + [v];
      }
      assert Greedy(rest, k) == Greedy(rest, k + 1);
    }
    assert emitted == Greedy(num, 0);
    return Ok(roman);
  }

  /** The rows the encoder emits add up to the number, from any row of the
      table. */
  lemma {:induction false} GreedyTotal(n: nat, k: nat)
    requires k < |Table|
    ensures Total(Greedy(n, k)) == n
    decreases |Table| - k, n
  {
    if n >= Table[k].value {
      GreedyTotal(n - Table[k].value, k);
      assert Greedy(n, k)[1..] == Greedy(n - Table[k].value, k);
    } else if k + 1 < |Table| {
      GreedyTotal(n, k + 1);
    } else {
      assert n == 0;
    }
  }

  /** Spelling distributes over concatenation. */
  lemma {:induction false} SpellConcat(a: seq<Numeral>, b: seq<Numeral>)
    ensures Spell(a + b) == Spell(a) + Spell(b)
  {
    if a != [] {
      var rest := a[1..];
      assert (a + b)[0] == a[0] && (a + b)[1..] == rest + b;
      SpellConcat(rest, b);
    } else {
      assert a + b == b;
    }
  }

  /** `t` copies of row `x`. */
  function Copies(x: Numeral, t: nat): (ns: seq<Numeral>)
    ensures |ns| == t && forall j :: 0 <= j < t ==> ns[j] == x
  {
    if t == 0 then [] else [x] + Copies(x, t - 1)
  }

  /** `t` copies of the character `c`. */
  function Repeat(c: char, t: nat): (s: string)
    ensures |s| == t && forall j :: 0 <= j < t ==> s[j] == c
  {
    if t == 0 then "" else [c] + Repeat(c, t - 1)
  }

  /** Nothing is emitted for 0. */
  lemma {:induction false} GreedyOfZero(k: nat)
    requires k <= |Table|
    ensures Greedy(0, k) == []
    decreases |Table| - k
  {
    if k < |Table| {
      GreedyOfZero(k + 1);
    }
  }

  /** From the I row on, j is written as j I's. */
  lemma {:induction false} GreedyOnes(j: nat)
    ensures Greedy(j, 12) == Copies(Table[12], j)
  {
    if j == 0 {
      assert Greedy(0, 13) == [];
    } else {
      GreedyOnes(j - 1);
      assert Greedy(j, 12) == [Table[12]] + Greedy(j - 1, 12);
    }
  }

  /** Ten or more: the X row is emitted. */
  lemma EmitX(n: nat)
    requires n >= 10
    ensures Greedy(n, 8) == [Table[8]] + Greedy(n - 10, 8)
  {
  }

  /** Below ten: the encoder moves past the X row. */
  lemma PassX(u: nat)
    requires u < 10
    ensures Greedy(u, 8) == Greedy(u, 9)
  {
  }

  /** From the X row on, the X row is emitted once per ten, then the units follow. */
  lemma {:induction false} GreedyTens(t: nat, u: nat)
    requires u < 10
    ensures Greedy(10 * t + u, 8) == Copies(Table[8], t) + Greedy(u, 9)
  {
    if t == 0 {
      PassX(u);
    } else {
      var x, g := Table[8], Greedy(u, 9);
      GreedyTens(t - 1, u);
      EmitX(10 * t + u);
      assert 10 * t + u - 10 == 10 * (t - 1) + u;
      assert Copies(x, t) + g == [x] + (Copies(x, t - 1) + g);
    }
  }

  /** Copies of a one-character row spell copies of that character. */
  lemma {:induction false} SpellCopies(x: Numeral, t: nat)
    requires |x.symbol| == 1
    ensures Spell(Copies(x, t)) == Repeat(x.symbol[0], t)
  {
    if t > 0 {
      var ns := Copies(x, t);
      assert ns[0] == x && ns[1..] == Copies(x, t - 1);
      SpellCopies(x, t - 1);
    }
  }

  /** Below 40 the rows of 40 and more are skipped. */
  lemma SkipLargeRows(n: nat)
    requires n < 40
    ensures Greedy(n, 0) == Greedy(n, 8)
  {
    assert Greedy(n, 0) == Greedy(n, 1) == Greedy(n, 2) == Greedy(n, 3) == Greedy(n, 4)
        == Greedy(n, 5) == Greedy(n, 6) == Greedy(n, 7) == Greedy(n, 8);
  }

  /** Decoding a run of one symbol, entered with no previous symbol or one at
      least as large, adds its value once per copy. */
  lemma {:induction false} DecodeRun(c: char, t: nat, w: string, sum: int, lastValue: int)
    requires c in RomanValues
    requires lastValue == 0 || lastValue >= RomanValues[c]
    ensures Decode(Repeat(c, t) + w, sum, lastValue)
         == Decode(w, sum + t * RomanValues[c], if t == 0 then lastValue else RomanValues[c])
  {
    var v := RomanValues[c];
    if t > 0 {
      var rest := Repeat(c, t - 1) + w;
      assert (Repeat(c, t) + w)[0] == c && (Repeat(c, t) + w)[1..] == rest;
      assert Step(sum, lastValue, v) == sum + v;
      DecodeRun(c, t - 1, w, sum + v, v);
      assert sum + v + (t - 1) * v == sum + t * v;
    } else {
      assert Repeat(c, t) + w == w;
    }
  }

  /** The spelling of the units 0..9. */
  function UnitsText(u: nat): string
    requires u < 10
  {
    if u == 9 then "IX"
    else if u >= 5 then "V" + Repeat('I', u - 5)
    else if u == 4 then "IV"
    else Repeat('I', u)
  }

  /** How the encoder spells the units 0..9 from the IX row on. */
  lemma SpellUnits(u: nat)
    requires u < 10
    ensures Spell(Greedy(u, 9)) == UnitsText(u)
  {
    GreedyOnes(u);
    SpellCopies(Table[12], u);
    if u == 9 {
      GreedyOfZero(9);
      assert Greedy(9, 9) == [Table[9]];
    } else if u >= 5 {
      GreedyOnes(u - 5);
      SpellCopies(Table[12], u - 5);
      var g := Greedy(u - 5, 12);
      assert Greedy(u, 9) == Greedy(u, 10) == [Table[10]] + Greedy(u - 5, 10);
      assert Greedy(u - 5, 10) == Greedy(u - 5, 11) == g;
      assert ([Table[10]] + g)[0] == Table[10] && ([Table[10]] + g)[1..] == g;
    } else if u == 4 {
      GreedyOfZero(11);
      assert Greedy(4, 9) == Greedy(4, 10) == Greedy(4, 11) == [Table[11]];
    } else {
      assert Greedy(u, 9) == Greedy(u, 10) == Greedy(u, 11) == Greedy(u, 12);
    }
  }

  /** The units 0..9 decode to themselves, after X's or after nothing. */
  lemma DecodeUnits(u: nat, sum: int, lastValue: int)
    requires u < 10
    requires lastValue == 0 || lastValue == 10
    ensures Decode(Spell(Greedy(u, 9)), sum, lastValue) == Some(sum + u)
  {
    SpellUnits(u);
    DecodeUnitsText(u, sum, lastValue);
  }

  lemma DecodeUnitsText(u: nat, sum: int, lastValue: int)
    requires u < 10
    requires lastValue == 0 || lastValue == 10
    ensures Decode(UnitsText(u), sum, lastValue) == Some(sum + u)
  {
    assert RomanValues['I'] == 1;
    if u == 9 {
      assert Decode("IX", sum, lastValue) == Decode("X", sum + 1, 1) == Decode("", sum + 9, 10);
    } else if u >= 5 {
      DecodeAfterFive(u - 5, sum, lastValue);
    } else if u == 4 {
      assert Decode("IV", sum, lastValue) == Decode("V", sum + 1, 1) == Decode("", sum + 4, 5);
    } else {
      DecodeRun('I', u, "", sum, lastValue);
      assert Repeat('I', u) + "" == Repeat('I', u);
    }
  }

  lemma DecodeAfterFive(j: nat, sum: int, lastValue: int)
    requires lastValue == 0 || lastValue == 10
    ensures Decode("V" + Repeat('I', j), sum, lastValue) == Some(sum + 5 + j)
  {
    var s := "V" + Repeat('I', j);
    assert s[0] == 'V' && s[1..] == Repeat('I', j) + "";
    assert RomanValues['I'] == 1;
    DecodeRun('I', j, "", sum + 5, 5);
  }

  /** Below 40 the encoder spells t X's and then the units. */
  lemma SpellBelowForty(t: nat, u: nat)
    requires t < 4 && u < 10
    ensures Spell(Greedy(10 * t + u, 0)) == Repeat('X', t) + Spell(Greedy(u, 9))
  {
    SkipLargeRows(10 * t + u);
    GreedyTens(t, u);
    SpellConcat(Copies(Table[8], t), Greedy(u, 9));
    SpellCopies(Table[8], t);
  }

  /** For 1..39 the decoder of parseNumber reads back what intToRoman wrote. */
  lemma RoundTripBelowForty(n: int)
    requires 1 <= n <= 39
    ensures IntToRomanSpec(n).Ok?
    ensures ParseNumberSpec(IntToRomanSpec(n).value) == Ok(Operand(n, true))
  {
    var t, u := n / 10, n % 10;
    SpellBelowForty(t, u);
    var s := Spell(Greedy(n, 0));
    DecodeUnits(u, 10 * t, if t == 0 then 0 else 10);
    DecodeRun('X', t, Spell(Greedy(u, 9)), 0, 0);
    assert RomanSum(s) == Some(n);
    DecodeFailsOnForeignSymbol(s, 0, 0);
    assert s != [] by {
      assert s == [] ==> RomanSum(s) == Some(0);
    }
    ParseRoman(s);
  }

  /** From 40 on the encoder's first row is one of 40 or more. */
  lemma {:induction false} FirstRowLarge(n: nat, k: nat)
    requires 40 <= n && k <= 7
    ensures Greedy(n, k) != [] && Greedy(n, k)[0] in Table[..8]
    decreases 7 - k
  {
    if n < Table[k].value {
      FirstRowLarge(n, k + 1);
    }
  }

  /** Every row of 40 or more ends in a symbol the decoder does not know. */
  lemma LargeRowEndsForeign(x: Numeral)
    requires x in Table[..8]
    ensures |x.symbol| >= 1 && !IsRomanSymbol(x.symbol[|x.symbol| - 1])
    ensures !IsDigit(x.symbol[0]) && x.symbol[0] != '+' && x.symbol[0] != '-'
  {
  }

  /** From 40 to 3999 the numeral intToRoman writes is one parseNumber rejects. */
  lemma NoRoundTripFromForty(n: int)
    requires 40 <= n <= 3999
    ensures IntToRomanSpec(n).Ok?
    ensures ParseNumberSpec(IntToRomanSpec(n).value) == Err(BadNumeral(IntToRomanSpec(n).value))
  {
    var ts := Greedy(n, 0);
    FirstRowLarge(n, 0);
    var sym := ts[0].symbol;
    LargeRowEndsForeign(ts[0]);
    var s := Spell(ts);
    assert s == sym + Spell(ts[1..]);
    assert s[0] == sym[0];
    assert s[|sym| - 1] == sym[|sym| - 1];
    assert !AllRomanSymbols(s);
    ParseRoman(s);
  }

  /** What intToRoman writes is read back by parseNumber exactly for 1..39. */
  lemma RoundTripExactlyBelowForty(n: int)
    requires 1 <= n <= 3999
    ensures IntToRomanSpec(n).Ok?
    ensures ParseNumberSpec(IntToRomanSpec(n).value) == Ok(Operand(n, true)) <==> n <= 39
  {
    if n <= 39 {
      RoundTripBelowForty(n);
    } else {
      NoRoundTripFromForty(n);
    }
  }

  /** A Roman operand is not limited to 10: t X's parse as 10·t, however many. */
  lemma RomanOperandsUnbounded(t: nat)
    requires t >= 1
    ensures ParseNumberSpec(Repeat('X', t)) == Ok(Operand(10 * t, true))
  {
    var s := Repeat('X', t);
    DecodeRun('X', t, "", 0, 0);
    assert s + "" == s;
    assert AllRomanSymbols(s);
    ParseRoman(s);
  }
}
