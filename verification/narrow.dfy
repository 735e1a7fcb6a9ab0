/**
 Parsing of the user's narrow (search filter) expression: the text is split
 into whitespace-separated tokens, and each token into an operator (before
 its first ':') and an operand (everything after that colon).
 */
module Narrow {
  import opened Failures

  /** One `{operator, operand}` clause of the narrow sent to the message API. */
  datatype Clause = Clause(operator: string, operand: string)

  /** The characters that Python's argument-less `str.split()` separates on. */
  predicate IsSpace(c: char) {
    var n := c as int;
    || n == 0x20
    || 0x09 <= n <= 0x0D
    || 0x1C <= n <= 0x1F
    || n == 0x85 || n == 0xA0 || n == 0x1680
    || 0x2000 <= n <= 0x200A
    || n == 0x2028 || n == 0x2029 || n == 0x202F || n == 0x205F || n == 0x3000
  }

  predicate NoSpace(s: string) {
    forall i :: 0 <= i < |s| ==> !IsSpace(s[i])
  }

  predicate AllSpace(s: string) {
    forall i :: 0 <= i < |s| ==> IsSpace(s[i])
  }

  /** The longest prefix of `s` that holds no whitespace. */
  function Word(s: string): (w: string)
    ensures w <= s
    ensures NoSpace(w)
    ensures |w| == |s| || IsSpace(s[|w|])
  {
    if s == [] || IsSpace(s[0]) then [] else [s[0]] + Word(s[1..])
  }

  /** `s.split()`: the maximal runs of non-whitespace characters, in order. */
  function Tokens(s: string): (ts: seq<string>)
    ensures forall i :: 0 <= i < |ts| ==> ts[i] != [] && NoSpace(ts[i])
    decreases |s|
  {
    if s == [] then []
    else if IsSpace(s[0]) then Tokens(s[1..])
    else
      var w := Word(s);
      [w] + Tokens(s[|w|..])
  }

  /** Index of the first ':' in `t`, if there is one. */
  function FirstColon(t: string): (r: Option<nat>)
    ensures r.None? <==> ':' !in t
    ensures r.Some? ==> r.value < |t| && t[r.value] == ':' && ':' !in t[..r.value]
  {
    if t == [] then None
    else if t[0] == ':' then Some(0)
    else match FirstColon(t[1..])
      case None => None
      case Some(i) =>
        assert t[..i + 1] == [t[0]] + t[1..][..i];
        Some(i + 1)
  }

  /**
   One token becomes one clause: the operator is the text before the first
   ':' and the operand all of the text after it, further colons included.
   A token without ':' is an error.
   */
  function ParseClause(token: string): (r: Result<Clause>)
    ensures r.Err? <==> ':' !in token
    ensures r.Err? ==> r.error == MalformedNarrowToken(token)
    ensures r.Ok? ==> ':' !in r.value.operator && token == r.value.operator + ":" + r.value.operand
  {
    match FirstColon(token)
    case None => Err(MalformedNarrowToken(token))
    case Some(i) =>
      assert token == token[..i] + ":" + token[i + 1..];
      Ok(Clause(token[..i], token[i + 1..]))
  }

  /** Every token carries the ':' that separates its operator from its operand. */
  predicate AllHaveColon(ts: seq<string>) {
    forall i :: 0 <= i < |ts| ==> ':' in ts[i]
  }

  /** The clauses of `ts` in order, or the error of the first token that has no ':'. */
  function ParseClauses(ts: seq<string>): (r: Result<seq<Clause>>)
    ensures r.Ok? <==> AllHaveColon(ts)
    ensures r.Ok? ==> |r.value| == |ts|
    ensures r.Ok? ==> forall i :: 0 <= i < |ts| ==> ParseClause(ts[i]) == Ok(r.value[i])
    ensures r.Err? ==> exists i :: 0 <= i < |ts| && ':' !in ts[i] && r.error == MalformedNarrowToken(ts[i])
                                   && forall j :: 0 <= j < i ==> ':' in ts[j]
  {
    if ts == [] then Ok([])
    else match ParseClause(ts[0])
      case Err(e) => Err(e)
      case Ok(c) =>
        match ParseClauses(ts[1..])
        case Err(e) =>
          assert exists i :: 0 <= i < |ts| - 1 && ':' !in ts[1..][i] && e == MalformedNarrowToken(ts[1..][i])
                             && forall j :: 0 <= j < i ==> ':' in ts[1..][j];
          var i :| 0 <= i < |ts| - 1 && ':' !in ts[1..][i] && e == MalformedNarrowToken(ts[1..][i])
                   && forall j :: 0 <= j < i ==> ':' in ts[1..][j];
          assert forall j :: 0 <= j < i + 1 ==> ':' in ts[j] by {
            forall j | 0 <= j < i + 1 ensures ':' in ts[j] {
              if j > 0 { assert ts[j] == ts[1..][j - 1]; }
            }
          }
          Err(e)
        case Ok(cs) =>
          assert forall i :: 1 <= i < |ts| ==> ts[i] == ts[1..][i - 1];
          Ok([c] + cs)
  }

  /** The narrow that a filter expression denotes. */
  function ParseNarrow(s: string): (r: Result<seq<Clause>>)
    ensures r.Ok? <==> AllHaveColon(Tokens(s))
    ensures r.Ok? ==> |r.value| == |Tokens(s)|
    ensures r.Ok? ==> forall i :: 0 <= i < |r.value| ==>
                        Tokens(s)[i] == r.value[i].operator + ":" + r.value[i].operand
                        && ':' !in r.value[i].operator
    ensures r.Err? ==> exists i :: 0 <= i < |Tokens(s)| && ':' !in Tokens(s)[i]
                                   && r.error == MalformedNarrowToken(Tokens(s)[i])
  {
    var ts := Tokens(s);
    ParseClauses(ts)
  }

  /** Splitting a whitespace-only (or empty) text gives no tokens, and only such a text does. */
  lemma {:induction false} TokensEmpty(s: string)
    ensures Tokens(s) == [] <==> AllSpace(s)
    decreases |s|
  {
    if s == [] {
    } else if IsSpace(s[0]) {
      TokensEmpty(s[1..]);
      if AllSpace(s[1..]) {
        assert forall i :: 1 <= i < |s| ==> s[i] == s[1..][i - 1];
      }
    } else {
      assert !AllSpace(s);
    }
  }

  /** The characters of `s` that are not whitespace, in order. */
  function Unspaced(s: string): string {
    if s == [] then [] else (if IsSpace(s[0]) then [] else [s[0]]) + Unspaced(s[1..])
  }

  /** The words of `ws` written one after the other. */
  function Concat(ws: seq<string>): string {
    if ws == [] then [] else ws[0] + Concat(ws[1..])
  }

  lemma {:induction false} UnspacedPrefix(s: string, w: string)
    requires w <= s && NoSpace(w)
    ensures Unspaced(s) == w + Unspaced(s[|w|..])
    decreases |w|
  {
    if w != [] {
      assert w[1..] <= s[1..];
      UnspacedPrefix(s[1..], w[1..]);
      assert s[1..][|w| - 1..] == s[|w|..];
      assert w == [s[0]] + w[1..];
    }
  }

  /** The tokens hold every non-whitespace character of the text, in order, and nothing else. */
  lemma {:induction false} TokensKeepText(s: string)
    ensures Concat(Tokens(s)) == Unspaced(s)
    decreases |s|
  {
    if s != [] {
      if IsSpace(s[0]) {
        TokensKeepText(s[1..]);
      } else {
        var w := Word(s);
        assert w == [s[0]] + Word(s[1..]);
        var rest := Tokens(s[|w|..]);
        TokensKeepText(s[|w|..]);
        assert ([w] + rest)[1..] == rest;
        UnspacedPrefix(s, w);
      }
    }
  }

  /** An empty or all-whitespace filter expression denotes the empty narrow. */
  lemma EmptyNarrow(s: string)
    requires AllSpace(s)
    ensures ParseNarrow(s) == Ok([])
  {
    TokensEmpty(s);
  }

  lemma {:induction false} WordOfWordThen(w: string, rest: string)
    requires NoSpace(w)
    requires rest == [] || IsSpace(rest[0])
    ensures Word(w + rest) == w
    decreases |w|
  {
    if w == [] {
      assert w + rest == rest;
    } else {
      assert (w + rest)[1..] == w[1..] + rest;
      WordOfWordThen(w[1..], rest);
    }
  }

  lemma {:induction false} TokensOfSpaces(sp: string, s: string)
    requires AllSpace(sp)
    ensures Tokens(sp + s) == Tokens(s)
    decreases |sp|
  {
    if sp == [] {
      assert sp + s == s;
    } else {
      assert (sp + s)[1..] == sp[1..] + s;
      TokensOfSpaces(sp[1..], s);
    }
  }

  lemma TokensOfWordThen(w: string, rest: string)
    requires w != [] && NoSpace(w)
    requires rest == [] || IsSpace(rest[0])
    ensures Tokens(w + rest) == [w] + Tokens(rest)
  {
    WordOfWordThen(w, rest);
    assert (w + rest)[|w|..] == rest;
  }

  /** The words of `ws` separated by one space each. */
  function JoinWords(ws: seq<string>): string {
    if ws == [] then [] else if |ws| == 1 then ws[0] else ws[0] + " " + JoinWords(ws[1..])
  }

  /** Splitting words joined by single spaces gives the words back, in order. */
  lemma {:induction false} TokensOfJoin(ws: seq<string>)
    requires forall i :: 0 <= i < |ws| ==> ws[i] != [] && NoSpace(ws[i])
    ensures Tokens(JoinWords(ws)) == ws
    decreases |ws|
  {
    if ws == [] {
    } else if |ws| == 1 {
      TokensOfWordThen(ws[0], []);
      assert ws[0] + [] == ws[0];
    } else {
      var rest := JoinWords(ws[1..]);
      assert ws[0] + " " + rest == ws[0] + (" " + rest);
      TokensOfWordThen(ws[0], " " + rest);
      TokensOfSpaces(" ", rest);
      TokensOfJoin(ws[1..]);
      assert ws == [ws[0]] + ws[1..];
    }
  }

  /**
   The words of `ws` with the whitespace runs `seps` around and between
   them: `seps[0] + ws[0] + seps[1] + ... + ws[|ws| - 1] + seps[|ws|]`.
   */
  function Interleave(seps: seq<string>, ws: seq<string>): string
    requires |seps| == |ws| + 1
    decreases |ws|
  {
    if ws == [] then seps[0] else seps[0] + ws[0] + Interleave(seps[1..], ws[1..])
  }

  /**
   Splitting any text made of words and whitespace runs gives back exactly
   its words, in order: leading and trailing whitespace yields no token, and
   a run of several whitespace characters between two words separates them
   like a single space.
   */
  lemma {:induction false} TokensOfInterleave(seps: seq<string>, ws: seq<string>)
    requires |seps| == |ws| + 1
    requires forall i :: 0 <= i < |ws| ==> ws[i] != [] && NoSpace(ws[i])
    requires forall i :: 0 <= i < |seps| ==> AllSpace(seps[i])
    requires forall i :: 0 < i < |ws| ==> seps[i] != []
    ensures Tokens(Interleave(seps, ws)) == ws
    decreases |ws|
  {
    if ws == [] {
      TokensEmpty(seps[0]);
    } else {
      var rest := Interleave(seps[1..], ws[1..]);
      assert rest == [] || IsSpace(rest[0]) by {
        if |ws| > 1 {
          assert rest == seps[1] + ws[1] + Interleave(seps[2..], ws[2..]);
          assert rest[0] == seps[1][0];
        } else {
          assert rest == seps[1];
        }
      }
      assert seps[0] + ws[0] + rest == seps[0] + (ws[0] + rest);
      TokensOfSpaces(seps[0], ws[0] + rest);
      TokensOfWordThen(ws[0], rest);
      TokensOfInterleave(seps[1..], ws[1..]);
      assert ws == [ws[0]] + ws[1..];
    }
  }

  /** A clause that survives the round trip through its textual form. */
  predicate Printable(c: Clause) {
    ':' !in c.operator && NoSpace(c.operator) && NoSpace(c.operand)
  }

  /** The filter expression of a narrow: `operator:operand` tokens separated by spaces. */
  function Render(cs: seq<Clause>): string {
    JoinWords(seq(|cs|, i requires 0 <= i < |cs| => cs[i].operator + ":" + cs[i].operand))
  }

  /** Parsing the rendering of a narrow gives that narrow back. */
  lemma ParseRender(cs: seq<Clause>)
    requires forall i :: 0 <= i < |cs| ==> Printable(cs[i])
    ensures ParseNarrow(Render(cs)) == Ok(cs)
  {
    var ws := seq(|cs|, i requires 0 <= i < |cs| => cs[i].operator + ":" + cs[i].operand);
    forall i | 0 <= i < |ws| ensures ws[i] != [] && NoSpace(ws[i]) && ':' in ws[i] {
      assert ws[i][|cs[i].operator|] == ':';
      forall j | 0 <= j < |ws[i]| ensures !IsSpace(ws[i][j]) {
        if j < |cs[i].operator| {
          assert ws[i][j] == cs[i].operator[j];
        } else if j > |cs[i].operator| {
          assert ws[i][j] == cs[i].operand[j - |cs[i].operator| - 1];
        }
      }
    }
    TokensOfJoin(ws);
    var r := ParseNarrow(Render(cs));
    assert Tokens(Render(cs)) == ws;
    assert r == ParseClauses(ws);
    assert r.Ok? && |r.value| == |cs|;
    forall i | 0 <= i < |cs| ensures r.value[i] == cs[i] {
      assert ParseClause(ws[i]) == Ok(r.value[i]);
      ClauseSplitUnique(r.value[i], cs[i]);
    }
    assert r.value == cs;
  }

  /** A token splits at its first colon in only one way. */
  lemma ClauseSplitUnique(a: Clause, b: Clause)
    requires ':' !in a.operator && ':' !in b.operator
    requires a.operator + ":" + a.operand == b.operator + ":" + b.operand
    ensures a == b
  {
    var s := a.operator + ":" + a.operand;
    assert forall k :: 0 <= k < |a.operator| ==> s[k] == a.operator[k];
    assert forall k :: 0 <= k < |b.operator| ==> s[k] == b.operator[k];
    assert s[|a.operator|] == ':' && s[|b.operator|] == ':';
    assert |a.operator| == |b.operator|;
    assert a.operator == s[..|a.operator|] == b.operator;
    assert a.operand == s[|a.operator| + 1..] == b.operand;
  }
}
