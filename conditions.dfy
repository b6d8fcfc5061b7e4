/** Version constraints: parsing an expression such as `">=1.2,<2.0"` into (operator, version) clauses,
    and deciding whether a version satisfies every clause. */
module Conditions {
  import opened Wrappers
  import opened Text
  import opened Versions

  /** The operators of the program's operator table, `!=` included. */
  datatype Op = Eq | Lt | Le | Ne | Ge | Gt

  /** The comparison that the operator table maps each operator to, on loose versions. */
  predicate Holds(op: Op, a: Version, b: Version) {
    match op
    case Eq => a == b
    case Lt => Less(a, b)
    case Le => LessEq(a, b)
    case Ne => a != b
    case Ge => LessEq(b, a)
    case Gt => Less(b, a)
  }

  /** One clause: an operator and the version text captured after it. */
  datatype Clause = Clause(op: Op, number: NumberText)

  /** Either no constraint at all, the clauses in order, or the first comma-separated piece that does not match. */
  datatype Parsed = NoConstraint | Clauses(clauses: seq<Clause>) | Malformed(piece: string)

  function OpText(op: Op): string {
    match op
    case Eq => "=="
    case Lt => "<"
    case Le => "<="
    case Ne => "!="
    case Ge => ">="
    case Gt => ">"
  }

  /** The group `(==|>=|<=|>|<)`, its alternatives tried in that order. `!=` is not among them. */
  function MatchOperator(t: string): (r: Option<Op>)
    ensures r.Some? ==> r.value != Ne && StartsWith(t, OpText(r.value))
    ensures r == Some(Lt) ==> !StartsWith(t, "<=")
    ensures r == Some(Gt) ==> !StartsWith(t, ">=")
    ensures r.None? <==> !(StartsWith(t, "==") || StartsWith(t, ">=") || StartsWith(t, "<=")
                           || StartsWith(t, ">") || StartsWith(t, "<"))
  {
    if StartsWith(t, "==") then Some(Eq)
    else if StartsWith(t, ">=") then Some(Ge)
    else if StartsWith(t, "<=") then Some(Le)
    else if StartsWith(t, ">") then Some(Gt)
    else if StartsWith(t, "<") then Some(Lt)
    else None
  }

  /** The group ` *`: leading blanks (only the space character). */
  function SkipBlanks(s: string): (r: string)
    ensures |r| <= |s| && r == s[|s| - |r|..]
    ensures r == [] || r[0] != ' '
  {
    if s != [] && s[0] == ' ' then SkipBlanks(s[1..]) else s
  }

  /** ` *` consumes spaces only: everything `SkipBlanks` drops is a space. */
  lemma {:induction false} SkipBlanksDropsSpaces(s: string)
    ensures forall i :: 0 <= i < |s| - |SkipBlanks(s)| ==> s[i] == ' '
  {
    if s != [] && s[0] == ' ' {
      SkipBlanksDropsSpaces(s[1..]);
    }
  }

  /** The group `([0-9.]*)`: the longest prefix made of digits and dots. */
  function NumberPrefix(s: string): (r: NumberText)
    ensures |r| <= |s| && r == s[..|r|]
    ensures |r| < |s| ==> !(IsDigit(s[|r|]) || s[|r|] == '.')
  {
    if s != [] && (IsDigit(s[0]) || s[0] == '.') then
      var r := NumberPrefix(s[1..]);
      assert [s[0]] + r == s[..|r| + 1];
      [s[0]] + r
    else
      []
  }

  /** `re.match("(==|>=|<=|>|<) *([0-9.]*)", t)`: anchored at the start, and whatever follows the
      captured version is ignored. */
  function MatchClause(t: string): (r: Option<Clause>)
    ensures r.Some? <==> MatchOperator(t).Some?
    ensures r.Some? ==> r.value.op == MatchOperator(t).value
  {
    match MatchOperator(t)
    case None => None
    case Some(op) => Some(Clause(op, NumberPrefix(SkipBlanks(t[|OpText(op)|..]))))
  }

  /** Prepends already parsed clauses to the outcome of parsing the remaining pieces. */
  function Extend(pre: seq<Clause>, p: Parsed): Parsed {
    match p
    case Clauses(cs) => Clauses(pre + cs)
    case _ => p
  }

  /** What the loop of `parse_conditions` does with one piece: strip it, then match the clause pattern. */
  function PieceClause(piece: string): (r: Option<Clause>)
    ensures r.None? <==> MatchOperator(Strip(piece)).None?
    ensures r.Some? ==> r.value.op != Ne
  {
    MatchClause(Strip(piece))
  }

  /** Parses the comma-separated pieces one by one with `clause`; the first piece that does not match raises. */
  function ParsePieces(ps: seq<string>, clause: string -> Option<Clause>): (r: Parsed)
    ensures r != NoConstraint
  {
    if ps == [] then Clauses([])
    else
      match clause(ps[0])
      case None => Malformed(ps[0])
      case Some(c) => Extend([c], ParsePieces(ps[1..], clause))
  }

  /** `parse_conditions`: an absent or empty expression is no constraint; otherwise every
      comma-separated piece, stripped, is matched against the clause pattern. */
  function Parse(conditions: Option<string>): (r: Parsed)
    ensures r.NoConstraint? <==> conditions.None? || conditions.value == ""
  {
    if conditions.None? || conditions.value == "" then NoConstraint
    else ParsePieces(Split(conditions.value, ','), PieceClause)
  }

  /** Parsing from piece `i` on: when that piece matches, its clause comes before the rest. */
  lemma ParsePiecesFrom(ps: seq<string>, clause: string -> Option<Clause>, i: nat)
    requires i < |ps| && clause(ps[i]).Some?
    ensures ParsePieces(ps[i..], clause) == Extend([clause(ps[i]).value], ParsePieces(ps[i + 1..], clause))
  {
    assert ps[i..][1..] == ps[i + 1..];
  }

  lemma ExtendExtend(pre: seq<Clause>, c: Clause, p: Parsed)
    ensures Extend(pre, Extend([c], p)) == Extend(pre + [c], p)
  {
  }

  /** `parse_conditions`. */
  method ParseConditions(conditions: Option<string>) returns (r: Parsed)
    ensures r == Parse(conditions)
    ensures r == NoConstraint <==> conditions.None? || conditions.value == ""
  {
    if conditions.None? || conditions.value == "" {
      return NoConstraint;
    }
    r := ParseEach(Split(conditions.value, ','), PieceClause);
  }

  /** The loop of `parse_conditions`, appending one clause per piece, for any way `clause` of matching
      a piece. */
  method ParseEach(pieces: seq<string>, clause: string -> Option<Clause>) returns (r: Parsed)
    ensures r == ParsePieces(pieces, clause)
  {
    var parsed: seq<Clause> := [];
    for i := 0 to |pieces|
      invariant ParsePieces(pieces, clause) == Extend(parsed, ParsePieces(pieces[i..], clause))
    {
      var m := clause(pieces[i]);
      if m.None? {
        assert pieces[i..][0] == pieces[i];
        return Malformed(pieces[i]);
      }
      ParsePiecesFrom(pieces, clause, i);
      ExtendExtend(parsed, m.value, ParsePieces(pieces[i + 1..], clause));
      parsed := parsed + [m.value];
    }
    assert pieces[|pieces|..] == [];
    return Clauses(parsed);
  }

  /** A version is compatible when every clause holds between it and the clause's version. */
  ghost predicate SatisfiesAll(v: Version, cs: seq<Clause>) {
    forall i :: 0 <= i < |cs| ==> Holds(cs[i].op, v, Components(cs[i].number))
  }

  /** Parsing the pieces succeeds exactly when every piece matches, and then yields one clause per
      piece in the same order. */
  lemma {:induction false} ParsePiecesClauses(ps: seq<string>, clause: string -> Option<Clause>)
    ensures ParsePieces(ps, clause).Clauses? <==> forall i :: 0 <= i < |ps| ==> clause(ps[i]).Some?
    ensures ParsePieces(ps, clause).Clauses? ==>
      |ParsePieces(ps, clause).clauses| == |ps| &&
      forall i :: 0 <= i < |ps| ==> ParsePieces(ps, clause).clauses[i] == clause(ps[i]).value
  {
    if ps != [] {
      var tail := ps[1..];
      ParsePiecesClauses(tail, clause);
      assert forall i :: 0 < i < |ps| ==> ps[i] == tail[i - 1];
    }
  }

  /** When parsing fails, it reports the first piece that does not match. */
  lemma {:induction false} ParsePiecesMalformed(ps: seq<string>, clause: string -> Option<Clause>)
    requires ParsePieces(ps, clause).Malformed?
    ensures exists k ::
      && 0 <= k < |ps|
      && ParsePieces(ps, clause).piece == ps[k]
      && clause(ps[k]).None?
      && (forall i :: 0 <= i < k ==> clause(ps[i]).Some?)
  {
    if clause(ps[0]).Some? {
      var tail := ps[1..];
      ParsePiecesMalformed(tail, clause);
      var k :| 0 <= k < |tail| && ParsePieces(tail, clause).piece == tail[k] && clause(tail[k]).None? &&
        (forall i :: 0 <= i < k ==> clause(tail[i]).Some?);
      assert ps[k + 1] == tail[k];
      assert forall i :: 0 < i < k + 1 ==> ps[i] == tail[i - 1];
    }
  }

  /** The operator `!=` of the table can never come out of parsing: the pattern does not accept it. */
  lemma ParsedNeverNe(conditions: Option<string>)
    requires Parse(conditions).Clauses?
    ensures forall c :: c in Parse(conditions).clauses ==> c.op != Ne
  {
    var ps := Split(conditions.value, ',');
    assert Parse(conditions) == ParsePieces(ps, PieceClause);
    forall t ensures PieceClause(t).Some? ==> PieceClause(t).value.op != Ne {
    }
    PiecesNeverNe(ps, PieceClause);
  }

  /** No clause out of the pieces has an operator that `clause` never produces. */
  lemma PiecesNeverNe(ps: seq<string>, clause: string -> Option<Clause>)
    requires forall t :: clause(t).Some? ==> clause(t).value.op != Ne
    requires ParsePieces(ps, clause).Clauses?
    ensures forall c :: c in ParsePieces(ps, clause).clauses ==> c.op != Ne
  {
    ParsePiecesClauses(ps, clause);
    forall c | c in ParsePieces(ps, clause).clauses ensures c.op != Ne {
      var i :| 0 <= i < |ps| && ParsePieces(ps, clause).clauses[i] == c;
      assert c == clause(ps[i]).value;
    }
  }

  /** A piece written with `!=` makes the whole expression malformed. */
  lemma NotEqualIsMalformed(s: string, k: nat)
    requires k < |Split(s, ',')| && StartsWith(Strip(Split(s, ',')[k]), "!=")
    ensures Parse(Some(s)).Malformed?
  {
    var ps := Split(s, ',');
    assert |ps[k]| >= |Strip(ps[k])| > 0;
    assert s != "";
    NotEqualDoesNotMatch(Strip(ps[k]));
    ParsePiecesClauses(ps, PieceClause);
  }

  lemma NotEqualDoesNotMatch(t: string)
    requires StartsWith(t, "!=")
    ensures MatchClause(t).None?
  {
    assert t[0] == '!';
  }

  /** The text of a clause, as a maintainer writes it. */
  function ClauseText(c: Clause): string {
    OpText(c.op) + c.number
  }

  function ClausesText(cs: seq<Clause>): (r: seq<string>)
    ensures |r| == |cs| && forall i :: 0 <= i < |cs| ==> r[i] == ClauseText(cs[i])
  {
    if cs == [] then [] else [ClauseText(cs[0])] + ClausesText(cs[1..])
  }

  /** The written form of a list of clauses: their texts joined by commas. */
  function Expression(cs: seq<Clause>): string
    requires cs != []
  {
    Join(ClausesText(cs), ',')
  }

  /** The operator pattern recognises the text of every operator it knows, whatever version follows. */
  lemma MatchOperatorText(op: Op, number: NumberText)
    requires op != Ne
    ensures MatchOperator(OpText(op) + number) == Some(op)
  {
    var t := OpText(op) + number;
    assert t[0] == OpText(op)[0];
    if |OpText(op)| == 2 {
      assert t[..2] == OpText(op);
    } else if number != [] {
      assert t[1] == number[0];
      assert IsDigit(number[0]) || number[0] == '.';
    }
  }

  /** A version text is captured whole. */
  lemma {:induction false} NumberPrefixOfNumber(s: NumberText)
    ensures SkipBlanks(s) == s
    ensures NumberPrefix(s) == s
  {
    if s != [] {
      assert IsDigit(s[0]) || s[0] == '.';
      NumberPrefixOfNumber(s[1..]);
    }
  }

  /** The text of a clause has no white space around it. */
  lemma ClauseTextUnspaced(c: Clause)
    ensures Strip(ClauseText(c)) == ClauseText(c)
  {
    var t := ClauseText(c);
    assert t[0] == OpText(c.op)[0];
    if c.number != [] {
      assert t[|t| - 1] == c.number[|c.number| - 1];
      assert IsDigit(c.number[|c.number| - 1]) || c.number[|c.number| - 1] == '.';
    }
    StripUnspaced(t);
  }

  /** Matching the text of one clause gives that clause back, for every operator the pattern knows. */
  lemma MatchClauseText(c: Clause)
    requires c.op != Ne
    ensures Strip(ClauseText(c)) == ClauseText(c)
    ensures MatchClause(ClauseText(c)) == Some(c)
  {
    ClauseTextUnspaced(c);
    MatchOperatorText(c.op, c.number);
    NumberPrefixOfNumber(c.number);
    assert ClauseText(c)[|OpText(c.op)|..] == c.number;
  }

  /** The text of a clause holds no comma. */
  lemma ClauseTextLacksComma(c: Clause)
    ensures ',' !in ClauseText(c)
  {
    var t := ClauseText(c);
    var n := |OpText(c.op)|;
    forall j | n <= j < |t| ensures t[j] != ',' {
      assert t[j] == c.number[j - n];
      assert IsDigit(c.number[j - n]) || c.number[j - n] == '.';
    }
  }

  /** The pieces of the written form of clauses are the texts of the clauses. */
  lemma SplitExpression(cs: seq<Clause>)
    requires cs != []
    ensures Expression(cs) != ""
    ensures Split(Expression(cs), ',') == ClausesText(cs)
  {
    var ps := ClausesText(cs);
    forall i | 0 <= i < |ps| ensures ',' !in ps[i] {
      ClauseTextLacksComma(cs[i]);
    }
    SplitJoin(ps, ',');
    assert ps[0] != [];
    if |ps| > 1 {
      assert Expression(cs) == ps[0] + [','] + Join(ps[1..], ',');
    }
  }

  /** Every piece of the written form of clauses matches as its clause. */
  lemma PiecesOfExpression(cs: seq<Clause>)
    requires forall c :: c in cs ==> c.op != Ne
    ensures forall i :: 0 <= i < |cs| ==> PieceClause(ClausesText(cs)[i]) == Some(cs[i])
  {
    forall i | 0 <= i < |cs| ensures PieceClause(ClausesText(cs)[i]) == Some(cs[i]) {
      assert cs[i] in cs;
      MatchClauseText(cs[i]);
    }
  }

  /** When every piece matches, parsing yields exactly their clauses. */
  lemma {:induction false} ParsePiecesAllMatch(ps: seq<string>, clause: string -> Option<Clause>, cs: seq<Clause>)
    requires |ps| == |cs| && forall i :: 0 <= i < |ps| ==> clause(ps[i]) == Some(cs[i])
    ensures ParsePieces(ps, clause) == Clauses(cs)
  {
    if ps != [] {
      ParsePiecesAllMatch(ps[1..], clause, cs[1..]);
      assert cs == [cs[0]] + cs[1..];
    }
  }

  /** Parsing the written form of clauses gives the same clauses in the same order. */
  lemma ParseExpression(cs: seq<Clause>)
    requires cs != []
    requires forall c :: c in cs ==> c.op != Ne
    ensures Parse(Some(Expression(cs))) == Clauses(cs)
  {
    SplitExpression(cs);
    PiecesOfExpression(cs);
    ParsePiecesAllMatch(ClausesText(cs), PieceClause, cs);
  }

  /** A clause written with a blank between operator and version holds no comma and no surrounding
      white space. */
  lemma SpacedText(op: Op, t: NumberText)
    requires t != ""
    ensures ',' !in OpText(op) + " " + t
    ensures Strip(OpText(op) + " " + t) == OpText(op) + " " + t
  {
    var o := OpText(op);
    var s := o + " " + t;
    forall j | 0 <= j < |s| ensures s[j] != ',' {
      if j > |o| {
        assert s[j] == t[j - |o| - 1];
        assert IsDigit(t[j - |o| - 1]) || t[j - |o| - 1] == '.';
      } else if j < |o| {
        assert s[j] == o[j];
      }
    }
    assert s[0] == o[0];
    assert s[|s| - 1] == t[|t| - 1];
    assert IsDigit(t[|t| - 1]) || t[|t| - 1] == '.';
    StripUnspaced(s);
  }

  /** The clause pattern reads an operator, blanks and a version as that clause: the longer
      operators `>=` and `<=` win over `>` and `<`. */
  lemma SpacedMatches(op: Op, t: NumberText)
    requires op != Ne
    ensures MatchClause(OpText(op) + " " + t) == Some(Clause(op, t))
  {
    var u := " " + t;
    var s := OpText(op) + u;
    assert s == OpText(op) + " " + t;
    MatchOperatorBlank(op, u);
    assert s[|OpText(op)|..] == u;
    assert u[1..] == t;
    NumberPrefixOfNumber(t);
  }

  /** An operator followed by a blank is matched as that operator. */
  lemma MatchOperatorBlank(op: Op, u: string)
    requires op != Ne && u != [] && u[0] == ' '
    ensures MatchOperator(OpText(op) + u) == Some(op)
  {
    var s := OpText(op) + u;
    assert s[|OpText(op)|] == ' ';
    match op
    case Eq => assert s[..2] == "==";
    case Ge => assert s[..2] == ">=";
    case Le => assert s[..2] == "<=";
    case Gt => assert s[..1] == ">";
    case Lt => assert s[..1] == "<";
  }

  /** An expression without commas is one piece. */
  lemma ParseSinglePiece(s: string, c: Clause)
    requires s != "" && ',' !in s && PieceClause(s) == Some(c)
    ensures Parse(Some(s)) == Clauses([c])
  {
    SplitJoin([s], ',');
    assert Join([s], ',') == s;
    ParsePiecesAllMatch([s], PieceClause, [c]);
  }

  /** A clause written with a blank between operator and version, such as `>= 1.2`, parses as that
      single clause. */
  lemma ParseSpaced(op: Op, t: NumberText)
    requires op != Ne && t != ""
    ensures Parse(Some(OpText(op) + " " + t)) == Clauses([Clause(op, t)])
  {
    SpacedText(op, t);
    SpacedMatches(op, t);
    ParseSinglePiece(OpText(op) + " " + t, Clause(op, t));
  }

  /** The constraint written for a pinned version parses as that single equality. */
  lemma ParsePinned(t: NumberText)
    requires t != ""
    ensures Parse(Some("== " + t)) == Clauses([Clause(Eq, t)])
  {
    assert OpText(Eq) + " " + t == "== " + t;
    ParseSpaced(Eq, t);
  }
}
