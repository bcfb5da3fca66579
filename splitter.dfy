/** The expression splitter of main.go:21-54: normalise the line, find its one
    operator, and cut it into a left operand, the operator and a right operand. */
module Splitter {
  import opened Results
  import opened Text

  predicate IsOperator(c: char) {
    c == '+' || c == '-' || c == '*' || c == '/'
  }

  /** `t` holds none of the four operator characters. */
  predicate NoOperator(t: string) {
    forall k :: 0 <= k < |t| ==> !IsOperator(t[k])
  }

  /** A line cut at its operator; both operands are trimmed and non-empty. */
  datatype Expression = Expression(left: string, op: char, right: string)

  /** main.go:21-24: the line upper-cased, then trimmed. */
  function Normalize(line: string): string {
    TrimSpace(ToUpper(line))
  }

  /** The indices of the operator characters of `s`, in increasing order. */
  function OperatorPositions(s: string): (ps: seq<nat>)
    ensures forall k :: 0 <= k < |ps| ==> ps[k] < |s|
  {
    if s == [] then []
    else
      var ps := OperatorPositions(s[..|s| - 1]);
      if IsOperator(s[|s| - 1]) then ps + [|s| - 1] else ps
  }

  /** Cuts `s` at index `p`: the trimmed texts on either side, or an error if either is blank. */
  function Cut(s: string, p: nat): Result<Expression>
    requires p < |s|
  {
    var left := TrimSpace(s[..p]);
    var right := TrimSpace(s[p + 1..]);
    if left == [] || right == [] then Err(BadExpression) else Ok(Expression(left, s[p], right))
  }

  /** What the splitter produces for an already normalised line `s`: an error
      unless it holds exactly one operator with a non-blank text on either side. */
  function SplitNormalized(s: string): Result<Expression> {
    if s == [] then Err(EmptyInput)
    else
      var ps := OperatorPositions(s);
      if |ps| != 1 then Err(BadExpression) else Cut(s, ps[0])
  }

  /** What the splitter produces for a raw input line. */
  function SplitSpec(line: string): Result<Expression> {
    SplitNormalized(Normalize(line))
  }

  /** An index holds an operator exactly when it is one of the operator positions. */
  lemma {:induction false} PositionsExact(s: string)
    ensures forall i :: 0 <= i < |s| ==> (IsOperator(s[i]) <==> i in OperatorPositions(s))
  {
    if s != [] {
      var t := s[..|s| - 1];
      PositionsExact(t);
      assert forall i :: 0 <= i < |t| ==> t[i] == s[i];
    }
  }

  /** The operator positions come in increasing order. */
  lemma {:induction false} PositionsIncreasing(s: string)
    ensures forall k, l :: 0 <= k < l < |OperatorPositions(s)| ==>
              OperatorPositions(s)[k] < OperatorPositions(s)[l]
  {
    if s != [] {
      PositionsIncreasing(s[..|s| - 1]);
    }
  }

  /** The operator positions of a prefix are a prefix of the operator positions. */
  lemma {:induction false} PositionsOfPrefix(s: string, j: nat)
    requires j <= |s|
    ensures |OperatorPositions(s[..j])| <= |OperatorPositions(s)|
    ensures OperatorPositions(s[..j]) == OperatorPositions(s)[..|OperatorPositions(s[..j])|]
    decreases |s| - j
  {
    if j < |s| {
      PositionsOfPrefix(s, j + 1);
      assert s[..j + 1][..j] == s[..j];
    } else {
      assert s[..j] == s;
    }
  }

  /** The operator scan of main.go:31-45: the index of the one operator of `s`,
      or an error as soon as a second one turns up, or when there is none. */
  method FindOperator(s: string) returns (r: Result<nat>)
    ensures r == if |OperatorPositions(s)| == 1 then Ok(OperatorPositions(s)[0]) else Err(BadExpression)
  {
    var operatorPos := -1;
    for i := 0 to |s|
      invariant -1 <= operatorPos < i
      invariant OperatorPositions(s[..i]) == if operatorPos == -1 then [] else [operatorPos]
    {
      assert s[..i + 1][..i] == s[..i];
      if IsOperator(s[i]) {
        if operatorPos != -1 {
          PositionsOfPrefix(s, i + 1);
          return Err(BadExpression);
        }
        operatorPos := i;
      }
    }
    assert s[..|s|] == s;
    if operatorPos == -1 {
      return Err(BadExpression);
    }
    return Ok(operatorPos);
  }

  /** The splitter of main.go:21-54. */
  method Split(line: string) returns (r: Result<Expression>)
    ensures r == SplitSpec(line)
  {
    var input := ToUpper(line);
    input := TrimSpace(input);
    if input == [] {
      return Err(EmptyInput);
    }
    var operatorPos :- FindOperator(input);
    var leftStr := TrimSpace(input[..operatorPos]);
    var rightStr := TrimSpace(input[operatorPos + 1..]);
    if leftStr == [] || rightStr == [] {
      return Err(BadExpression);
    }
    return Ok(Expression(leftStr, input[operatorPos], rightStr));
  }

  /** No operator, or two operators anywhere in the normalised line: rejected. */
  lemma SplitRejectsOperatorCount(s: string, i: nat, j: nat)
    requires s != []
    ensures NoOperator(s) ==> SplitNormalized(s) == Err(BadExpression)
    ensures i < j < |s| && IsOperator(s[i]) && IsOperator(s[j]) ==> SplitNormalized(s) == Err(BadExpression)
  {
    if NoOperator(s) {
      NoOperatorPositions(s);
    }
    if i < j < |s| && IsOperator(s[i]) && IsOperator(s[j]) {
      var ps := OperatorPositions(s);
      PositionsExact(s);
      assert i in ps && j in ps;
      assert |ps| != 1;
    }
  }

  /** A line without operator characters has no operator positions. */
  lemma {:induction false} NoOperatorPositions(s: string)
    requires NoOperator(s)
    ensures OperatorPositions(s) == []
  {
    if s != [] {
      NoOperatorPositions(s[..|s| - 1]);
    }
  }

  /** A line whose only operator character is at p has the one operator position p. */
  lemma {:induction false} UniqueOperatorPosition(s: string, p: nat)
    requires p < |s|
    requires forall k :: 0 <= k < |s| ==> (IsOperator(s[k]) <==> k == p)
    ensures OperatorPositions(s) == [p]
  {
    var t := s[..|s| - 1];
    if p == |s| - 1 {
      NoOperatorPositions(t);
    } else {
      UniqueOperatorPosition(t, p);
    }
  }

  /** With exactly one operator, at index p, the operands are the trimmed texts on
      either side of it, and the line is rejected when either of them is blank. */
  lemma SplitAtOperator(s: string, p: nat)
    requires p < |s|
    requires forall k :: 0 <= k < |s| ==> (IsOperator(s[k]) <==> k == p)
    ensures SplitNormalized(s) == Cut(s, p)
    ensures Cut(s, p) == if TrimSpace(s[..p]) == [] || TrimSpace(s[p + 1..]) == [] then Err(BadExpression)
                         else Ok(Expression(TrimSpace(s[..p]), s[p], TrimSpace(s[p + 1..])))
  {
    UniqueOperatorPosition(s, p);
  }

  /** Trimming keeps only characters of the text it trims: none of them an operator if none was. */
  lemma TrimKeepsNoOperator(t: string)
    requires NoOperator(t)
    ensures NoOperator(TrimSpace(t))
  {
    var a := LeadingSpaces(t);
    var r := TrimSpace(t);
    forall k | 0 <= k < |r| ensures !IsOperator(r[k]) {
      assert r[k] == t[a + k];
    }
  }

  /** The operands a cut produces are non-empty and blank-free on their edges. */
  lemma CutOperandsTrimmed(s: string, p: nat, e: Expression)
    requires p < |s| && Cut(s, p) == Ok(e)
    ensures e.op == s[p]
    ensures e.left != [] && !IsSpace(e.left[0]) && !IsSpace(e.left[|e.left| - 1])
    ensures e.right != [] && !IsSpace(e.right[0]) && !IsSpace(e.right[|e.right| - 1])
  {
  }

  /** An accepted line: its operator is one of + - * / and its operands are
      non-empty and blank-free on their edges. */
  lemma SplitAccepted(s: string, e: Expression)
    requires SplitNormalized(s) == Ok(e)
    ensures IsOperator(e.op)
    ensures e.left != [] && !IsSpace(e.left[0]) && !IsSpace(e.left[|e.left| - 1])
    ensures e.right != [] && !IsSpace(e.right[0]) && !IsSpace(e.right[|e.right| - 1])
  {
    var p := OperatorPositions(s)[0];
    PositionsExact(s);
    assert p in OperatorPositions(s);
    CutOperandsTrimmed(s, p, e);
  }

  /** The trimmed texts on either side of the only operator hold no operator. */
  lemma PiecesHaveNoOperator(s: string, p: nat)
    requires p < |s|
    requires forall k :: 0 <= k < |s| ==> (IsOperator(s[k]) <==> k == p)
    ensures NoOperator(TrimSpace(s[..p])) && NoOperator(TrimSpace(s[p + 1..]))
  {
    TrimKeepsNoOperator(s[..p]);
    var right := s[p + 1..];
    forall k | 0 <= k < |right| ensures !IsOperator(right[k]) {
      assert right[k] == s[p + 1 + k];
    }
    TrimKeepsNoOperator(right);
  }

  /** An accepted line was cut at its one operator position. */
  lemma SoleOperator(s: string, e: Expression) returns (p: nat)
    requires SplitNormalized(s) == Ok(e)
    ensures p < |s| && OperatorPositions(s) == [p] && Cut(s, p) == Ok(e)
  {
    var ps := OperatorPositions(s);
    p := ps[0];
    assert ps == [p];
  }

  /** The one operator position is the one index holding an operator. */
  lemma OnlyOperatorAt(s: string, p: nat)
    requires OperatorPositions(s) == [p]
    ensures p < |s| && forall k :: 0 <= k < |s| ==> (IsOperator(s[k]) <==> k == p)
  {
    PositionsExact(s);
    forall k | 0 <= k < |s| ensures IsOperator(s[k]) <==> k == p {
      assert k in OperatorPositions(s) <==> k == p;
    }
  }

  /** Neither operand of an accepted line holds an operator: the one it had is `e.op`. */
  lemma SplitOperandsHaveNoOperator(s: string, e: Expression)
    requires SplitNormalized(s) == Ok(e)
    ensures NoOperator(e.left) && NoOperator(e.right)
  {
    var p := SoleOperator(s, e);
    assert e == Expression(TrimSpace(s[..p]), s[p], TrimSpace(s[p + 1..]));
    OnlyOperatorAt(s, p);
    PiecesHaveNoOperator(s, p);
  }
}
