/** The library string functions main.go relies on, restricted to ASCII:
    strings.ToUpper, strings.TrimSpace and strconv.Atoi. */
module Text {
  import opened Results

  /** The white space strings.TrimSpace removes in its ASCII fast path. */
  predicate IsSpace(c: char) {
    c == ' ' || c == '\t' || c == '\n' || c == '\r' || c == '\U{B}' || c == '\U{C}'
  }

  function UpperChar(c: char): char {
    if 'a' <= c <= 'z' then (c as int - 'a' as int + 'A' as int) as char else c
  }

  function ToUpper(s: string): string {
    seq(|s|, i requires 0 <= i < |s| => UpperChar(s[i]))
  }

  predicate IsLower(c: char) {
    'a' <= c <= 'z'
  }

  /** strings.ToUpper keeps the length, leaves no lower-case letter, changes
      nothing else, and a second application changes nothing. */
  lemma ToUpperProperties(s: string)
    ensures |ToUpper(s)| == |s|
    ensures forall k :: 0 <= k < |s| ==> !IsLower(ToUpper(s)[k])
    ensures forall k :: 0 <= k < |s| && !IsLower(s[k]) ==> ToUpper(s)[k] == s[k]
    ensures forall k :: 0 <= k < |s| && IsLower(s[k]) ==> ToUpper(s)[k] as int == s[k] as int - 32
    ensures ToUpper(ToUpper(s)) == ToUpper(s)
  {
  }

  /** The number of white-space characters at the head of `s`. */
  function LeadingSpaces(s: string): (n: nat)
    ensures n <= |s|
    ensures forall k :: 0 <= k < n ==> IsSpace(s[k])
    ensures n < |s| ==> !IsSpace(s[n])
  {
    if s != [] && IsSpace(s[0]) then 1 + LeadingSpaces(s[1..]) else 0
  }

  /** The number of white-space characters at the tail of `s`. */
  function TrailingSpaces(s: string): (n: nat)
    ensures n <= |s|
    ensures forall k :: |s| - n <= k < |s| ==> IsSpace(s[k])
    ensures n < |s| ==> !IsSpace(s[|s| - 1 - n])
  {
    if s != [] && IsSpace(s[|s| - 1]) then 1 + TrailingSpaces(s[..|s| - 1]) else 0
  }

  /** strings.TrimSpace: the slice of `s` between its leading and its trailing
      white space; it neither starts nor ends with white space. */
  function TrimSpace(s: string): (r: string)
    ensures LeadingSpaces(s) + |r| <= |s| && r == s[LeadingSpaces(s)..LeadingSpaces(s) + |r|]
    ensures r == [] || (!IsSpace(r[0]) && !IsSpace(r[|r| - 1]))
  {
    var rest := s[LeadingSpaces(s)..];
    rest[..|rest| - TrailingSpaces(rest)]
  }

  /** What TrimSpace removes is white space, and it leaves nothing exactly when
      `s` is all white space. */
  lemma TrimSpaceRemovesOnlySpace(s: string)
    ensures forall k :: 0 <= k < LeadingSpaces(s) ==> IsSpace(s[k])
    ensures forall k :: LeadingSpaces(s) + |TrimSpace(s)| <= k < |s| ==> IsSpace(s[k])
    ensures TrimSpace(s) == [] <==> forall k :: 0 <= k < |s| ==> IsSpace(s[k])
  {
    var start := LeadingSpaces(s);
    var rest := s[start..];
    var r := TrimSpace(s);
    forall k | start + |r| <= k < |s| ensures IsSpace(s[k]) {
      assert s[k] == rest[k - start];
    }
    if r != [] {
      assert s[start] == r[0];
    }
  }

  predicate IsDigit(c: char) {
    '0' <= c <= '9'
  }

  predicate AllDigits(s: string) {
    forall i :: 0 <= i < |s| ==> IsDigit(s[i])
  }

  /** The value of a string of decimal digits, most significant first. */
  function DecimalValue(s: string): nat
    requires AllDigits(s)
  {
    if s == [] then 0 else 10 * DecimalValue(s[..|s| - 1]) + (s[|s| - 1] as int - '0' as int)
  }

  /** The range of Go's `int` on a 64-bit platform. */
  const MinInt: int := -0x8000_0000_0000_0000
  const MaxInt: int := 0x7FFF_FFFF_FFFF_FFFF

  /** strconv.Atoi for base 10: an optional sign, then at least one digit, and
      a value that fits in a 64-bit `int`; anything else is a failure. */
  function Atoi(s: string): (r: Option<int>)
    ensures r.Some? ==> s != [] && (IsDigit(s[0]) || s[0] == '+' || s[0] == '-')
    ensures r.Some? ==> MinInt <= r.value <= MaxInt
    ensures s != [] && AllDigits(s) ==>
              r == if DecimalValue(s) <= MaxInt then Some(DecimalValue(s)) else None
    ensures r.Some? <==>
              s != [] &&
              var d := if s[0] == '+' || s[0] == '-' then s[1..] else s;
              d != [] && AllDigits(d) &&
              MinInt <= (if s[0] == '-' then -(DecimalValue(d) as int) else DecimalValue(d)) <= MaxInt
    ensures r.Some? ==>
              var d := if s[0] == '+' || s[0] == '-' then s[1..] else s;
              AllDigits(d) && r.value == if s[0] == '-' then -(DecimalValue(d) as int) else DecimalValue(d)
  {
    if s == [] then None
    else
      var digits := if s[0] == '+' || s[0] == '-' then s[1..] else s;
      if digits == [] || !AllDigits(digits) then None
      else
        var magnitude: int := DecimalValue(digits);
        var n := if s[0] == '-' then -magnitude else magnitude;
        if n < MinInt || MaxInt < n then None else Some(n)
  }
}
