/**
 * How `select` splits a condition key into a column and a comparison
 * operator. The source matches the key against the PCRE pattern
 * `\s*(<|>|<=|>=|!=|=)\s*$`, takes capture group 1 as the operator, and
 * deletes the match to obtain the column.
 *
 * `MatchAt` states, independently of any parsing strategy, where that
 * pattern can match; `ParseKey` is a suffix parser; the lemmas below prove
 * that the parser returns exactly PCRE's leftmost match.
 */
module ConditionKeys {
  import opened Wrappers
  import opened Text

  datatype Operator = Lt | Gt | Le | Ge | Ne | Eq

  /** The operator token as written in the key and in the emitted SQL. */
  function OpText(op: Operator): (t: string)
    ensures 1 <= |t| <= 2
    ensures forall i | 0 <= i < |t| :: !IsSpace(t[i]) && t[i] != '?'
  {
    match op
    case Lt => "<"
    case Gt => ">"
    case Le => "<="
    case Ge => ">="
    case Ne => "!="
    case Eq => "="
  }

  /**
   * The pattern matches `key` from position `p` with the operator token
   * starting at `q`: whitespace on `[p, q)`, the token, whitespace to the end.
   */
  predicate MatchAt(key: string, p: int, q: int, op: Operator) {
    && 0 <= p <= q
    && q + |OpText(op)| <= |key|
    && SpaceBetween(key, p, q)
    && key[q..q + |OpText(op)|] == OpText(op)
    && SpaceBetween(key, q + |OpText(op)|, |key|)
  }

  /** A key split into the column it names and its comparison operator. */
  datatype KeyParse = KeyParse(column: string, op: Operator)

  /**
   * The operator token `s` ends with, if any; two-character tokens are
   * tried first so that `<=` is not read as `=`.
   */
  function TrailingOperator(s: string): (r: Option<Operator>)
    ensures r.Some? ==> |OpText(r.value)| <= |s| && s[|s| - |OpText(r.value)|..] == OpText(r.value)
  {
    if |s| >= 2 && s[|s| - 2..] == "<=" then Some(Le)
    else if |s| >= 2 && s[|s| - 2..] == ">=" then Some(Ge)
    else if |s| >= 2 && s[|s| - 2..] == "!=" then Some(Ne)
    else if |s| >= 1 && s[|s| - 1] == '<' then Some(Lt)
    else if |s| >= 1 && s[|s| - 1] == '>' then Some(Gt)
    else if |s| >= 1 && s[|s| - 1] == '=' then Some(Eq)
    else None
  }

  /** Every operator token ends in `<`, `>` or `=`. */
  predicate EndsInOperatorChar(s: string) {
    |s| > 0 && s[|s| - 1] in "<>="
  }

  /**
   * Drop trailing whitespace; if an operator token ends what is left, drop
   * it and the whitespace before it, and the remainder is the column.
   */
  function ParseKey(key: string): (r: Option<KeyParse>)
    ensures r.Some? <==> EndsInOperatorChar(TrimRight(key))
    ensures r.Some? ==> r.value.column <= key
    ensures r.Some? ==> |r.value.column| + |OpText(r.value.op)| <= |TrimRight(key)|
    ensures r.Some? ==> r.value.column == [] || !IsSpace(r.value.column[|r.value.column| - 1])
  {
    var t := TrimRight(key);
    match TrailingOperator(t)
    case None => None
    case Some(op) => Some(KeyParse(TrimRight(t[..|t| - |OpText(op)|]), op))
  }

  /** Any match's token ends exactly where the trailing whitespace begins. */
  lemma MatchEndsAtTrim(key: string, p: int, q: int, op: Operator)
    requires MatchAt(key, p, q, op)
    ensures q + |OpText(op)| == |TrimRight(key)|
  {
    var e := q + |OpText(op)|;
    var r := TrimRight(key);
    TrimRightWithin(key, e);
    assert key[e - 1] == OpText(op)[|OpText(op)| - 1];
  }

  /** At a given start the pattern admits one token position and one operator. */
  lemma MatchUnique(key: string, p: int, q1: int, op1: Operator, q2: int, op2: Operator)
    requires MatchAt(key, p, q1, op1) && MatchAt(key, p, q2, op2)
    ensures q1 == q2 && op1 == op2
  {
    MatchEndsAtTrim(key, p, q1, op1);
    MatchEndsAtTrim(key, p, q2, op2);
    assert key[q1] == OpText(op1)[0];
    assert key[q2] == OpText(op2)[0];
    if q1 == q2 {
      assert key[q1..q1 + |OpText(op1)|] == OpText(op1);
      assert key[q1..q1 + |OpText(op2)|] == OpText(op2);
    }
  }

  /** What the parser returns is a match of the pattern. */
  lemma ParseKeyIsMatch(key: string)
    requires ParseKey(key).Some?
    ensures var kp := ParseKey(key).value;
      MatchAt(key, |kp.column|, |TrimRight(key)| - |OpText(kp.op)|, kp.op)
  {
    var t := TrimRight(key);
    var op := TrailingOperator(t).value;
    var q := |t| - |OpText(op)|;
    var c := TrimRight(t[..q]);
    assert ParseKey(key).value == KeyParse(c, op);
    assert SpaceBetween(key, |c|, q) by {
      SpaceBetweenOfPrefix(key, q, |c|);
    }
    assert key[q..q + |OpText(op)|] == t[q..];
  }

  lemma SpaceBetweenOfPrefix(s: string, n: nat, lo: int)
    requires n <= |s|
    requires SpaceBetween(s[..n], lo, n)
    ensures SpaceBetween(s, lo, n)
  {
    forall i | lo <= i < n && 0 <= i < |s|
      ensures IsSpace(s[i])
    {
      assert s[i] == s[..n][i];
    }
  }

  /**
   * If `t` ends with `op`'s token, the suffix parser finds that token or a
   * two-character one whose last character is `op`'s one-character token.
   */
  lemma TrailingOperatorFinds(t: string, op: Operator)
    requires |OpText(op)| <= |t| && t[|t| - |OpText(op)|..] == OpText(op)
    ensures TrailingOperator(t).Some?
    ensures TrailingOperator(t).value == op || (|OpText(TrailingOperator(t).value)| == 2 && |OpText(op)| == 1)
  {
    assert t[|t| - 1] == OpText(op)[|OpText(op)| - 1];
  }

  /** No match starts to the left of the parser's column boundary. */
  lemma ParseKeyIsLeftmost(key: string, p: int, q: int, op: Operator)
    requires MatchAt(key, p, q, op)
    ensures ParseKey(key).Some?
    ensures |ParseKey(key).value.column| <= p
    ensures |ParseKey(key).value.column| == p ==> op == ParseKey(key).value.op
  {
    var t := TrimRight(key);
    MatchEndsAtTrim(key, p, q, op);
    var e := |t|;
    assert t[q..] == key[q..e];
    TrailingOperatorFinds(t, op);
    var op' := TrailingOperator(t).value;
    var q' := e - |OpText(op')|;
    if op' == op {
      TrimRightWithin(t[..q'], p);
    } else {
      // A two-character token ends the key and the match found is the
      // single `=` that closes it: that match starts right at the `=`.
      assert q == e - 1;
      assert t[e - 2] == OpText(op')[0];
      NoSpaceBefore(key, p, q);
    }
  }

  /** A whitespace run that ends just after a non-space is empty. */
  lemma NoSpaceBefore(key: string, p: int, q: int)
    requires 0 <= p <= q < |key| && q > 0
    requires SpaceBetween(key, p, q) && !IsSpace(key[q - 1])
    ensures p == q
  {
  }

  /**
   * The suffix parser agrees with PCRE: it fails exactly when the pattern
   * matches nowhere; otherwise its column is the key cut at the leftmost
   * match start (what `preg_replace` leaves) and its operator is the one
   * captured there.
   */
  lemma ParseKeyAgreesWithPattern(key: string)
    ensures ParseKey(key).None? <==> forall p, q, op :: !MatchAt(key, p, q, op)
    ensures ParseKey(key).Some? ==>
      var kp := ParseKey(key).value;
      && kp.column == key[..|kp.column|]
      && MatchAt(key, |kp.column|, |TrimRight(key)| - |OpText(kp.op)|, kp.op)
      && forall p, q, op :: MatchAt(key, p, q, op) ==> |kp.column| <= p && (p == |kp.column| ==> op == kp.op)
  {
    if ParseKey(key).Some? {
      ParseKeyIsMatch(key);
    }
    forall p, q, op | MatchAt(key, p, q, op)
      ensures ParseKey(key).Some?
      ensures |ParseKey(key).value.column| <= p
      ensures |ParseKey(key).value.column| == p ==> op == ParseKey(key).value.op
    {
      ParseKeyIsLeftmost(key, p, q, op);
    }
  }

  /** The `"$col $operator ?"` fragment `select` emits for one key. */
  function Clause(key: string): (c: string)
    ensures |c| > 2 && c[|c| - 2..] == " ?"
  {
    match ParseKey(key)
    case None => key + " = ?"
    case Some(kp) => kp.column + " " + OpText(kp.op) + " ?"
  }

  /**
   * The clause the pattern prescribes for `key`, stated without the parser:
   * with no match the key is used whole with `=`; otherwise the key is cut
   * at the leftmost match start and the operator captured there follows.
   */
  ghost predicate IsClauseFor(key: string, clause: string) {
    || ((forall p, q, op :: !MatchAt(key, p, q, op)) && clause == key + " = ?")
    || exists p, q, op ::
         && MatchAt(key, p, q, op)
         && (forall p', q', op' :: MatchAt(key, p', q', op') ==> p <= p')
         && clause == key[..p] + " " + OpText(op) + " ?"
  }

  /** `Clause` meets the pattern's prescription. */
  lemma ClauseIsPrescribed(key: string)
    ensures IsClauseFor(key, Clause(key))
  {
    ParseKeyAgreesWithPattern(key);
    if ParseKey(key).Some? {
      var kp := ParseKey(key).value;
      var q := |TrimRight(key)| - |OpText(kp.op)|;
      assert MatchAt(key, |kp.column|, q, kp.op);
    }
  }

  /** The prescription leaves no freedom: at most one clause meets it. */
  lemma PrescribedClauseUnique(key: string, c1: string, c2: string)
    requires IsClauseFor(key, c1) && IsClauseFor(key, c2)
    ensures c1 == c2
  {
    if exists p, q, op :: MatchAt(key, p, q, op) {
      var p1, q1, op1 :| MatchAt(key, p1, q1, op1)
        && (forall p', q', op' :: MatchAt(key, p', q', op') ==> p1 <= p')
        && c1 == key[..p1] + " " + OpText(op1) + " ?";
      var p2, q2, op2 :| MatchAt(key, p2, q2, op2)
        && (forall p', q', op' :: MatchAt(key, p', q', op') ==> p2 <= p')
        && c2 == key[..p2] + " " + OpText(op2) + " ?";
      assert p1 == p2;
      MatchUnique(key, p1, q1, op1, q2, op2);
    }
  }

  /** The clause holds no `?` beyond its placeholder unless the key does. */
  lemma ClauseHasOnePlaceholder(key: string)
    requires '?' !in key
    ensures Count(Clause(key), '?') == 1
  {
    match ParseKey(key)
    case None =>
      CountAbsent(key, '?');
      CountConcat(key, " = ?", '?');
    case Some(kp) =>
      var t := OpText(kp.op);
      assert '?' !in kp.column;
      CountAbsent(kp.column, '?');
      CountAbsent(t, '?');
      assert Clause(key) == kp.column + " " + t + " ?";
      CountConcat(kp.column, " ", '?');
      CountConcat(kp.column + " ", t, '?');
      CountConcat(kp.column + " " + t, " ?", '?');
  }

  /** `"age >"` becomes `age > ?`. */
  lemma ClauseExampleGreater()
    ensures ParseKey("age >") == Some(KeyParse("age", Gt))
    ensures Clause("age >") == "age > ?"
  {
    assert TrimRight("age >") == "age >";
    assert TrailingOperator("age >") == Some(Gt);
    assert "age >"[..4] == "age ";
    assert TrimRight("age ") == "age";
  }

  /** `"age <="` becomes `age <= ?`: the two-character token wins. */
  lemma ClauseExampleAtMost()
    ensures ParseKey("age <=") == Some(KeyParse("age", Le))
    ensures Clause("age <=") == "age <= ?"
  {
    assert TrimRight("age <=") == "age <=";
    assert TrailingOperator("age <=") == Some(Le);
    assert "age <="[..4] == "age ";
    assert TrimRight("age ") == "age";
  }

  /**
   * A key that ends in neither whitespace nor an operator character is a
   * bare column name, compared with `=`.
   */
  lemma PlainKey(key: string)
    requires |key| > 0 ==> !IsSpace(key[|key| - 1]) && key[|key| - 1] !in "<>="
    ensures ParseKey(key) == None
    ensures Clause(key) == key + " = ?"
  {
    assert TrimRight(key) == key;
  }

  /** `"age"` becomes `age = ?`. */
  lemma ClauseExamplePlain()
    ensures ParseKey("age") == None
    ensures Clause("age") == "age = ?"
  {
    PlainKey("age");
  }
}
