/** Materialised paths: components joined with slashes, decimal ids, LIKE patterns and prefix rewriting. */
module Paths {

  /** A path component: no slash in it. */
  ghost predicate Plain(s: string) {
    '/' !in s
  }

  ghost predicate AllPlain(parts: seq<string>) {
    forall i :: 0 <= i < |parts| ==> Plain(parts[i])
  }

  function Join(parts: seq<string>): string {
    if parts == [] then ""
    else if |parts| == 1 then parts[0]
    else Join(parts[..|parts| - 1]) + "/" + parts[|parts| - 1]
  }

  /** The position of the last slash, or -1. */
  function LastSlash(s: string): (k: int)
    ensures -1 <= k < |s|
    ensures k >= 0 ==> s[k] == '/'
    ensures forall i :: k < i < |s| ==> s[i] != '/'
  {
    if s == "" then -1
    else if s[|s| - 1] == '/' then |s| - 1
    else LastSlash(s[..|s| - 1])
  }

  /** string_to_array(s, '/'). */
  function Split(s: string): seq<string>
    decreases |s|
  {
    var k := LastSlash(s);
    if k == -1 then [s] else Split(s[..k]) + [s[k + 1..]]
  }

  lemma SplitAtSlash(s: string, k: nat)
    requires k < |s| && s[k] == '/' && Plain(s[k + 1..])
    ensures Split(s) == Split(s[..k]) + [s[k + 1..]]
  {
    var last := LastSlash(s);
    forall i | k < i < |s| ensures s[i] != '/' {
      assert s[i] == s[k + 1..][i - k - 1];
    }
    assert last == k;
  }

  lemma SplitPlain(s: string)
    requires Plain(s)
    ensures Split(s) == [s]
  {
    forall i | 0 <= i < |s| ensures s[i] != '/' {
      assert s[i] in s;
    }
  }

  lemma SplitSnoc(x: string, y: string)
    requires Plain(y)
    ensures Split(x + "/" + y) == Split(x) + [y]
  {
    var s := x + "/" + y;
    assert s[|x|] == '/' && s[..|x|] == x && s[|x| + 1..] == y;
    SplitAtSlash(s, |x|);
  }

  lemma JoinSnoc(parts: seq<string>, last: string)
    requires parts != []
    ensures Join(parts + [last]) == Join(parts) + "/" + last
  {
    assert (parts + [last])[..|parts|] == parts;
  }

  /** Splitting undoes joining. */
  lemma {:induction false} SplitJoin(parts: seq<string>)
    requires parts != [] && AllPlain(parts)
    ensures Split(Join(parts)) == parts
  {
    var n := |parts| - 1;
    if n == 0 {
      SplitPlain(parts[0]);
    } else {
      var init, y := parts[..n], parts[n];
      assert parts == init + [y];
      SplitJoin(init);
      SplitSnoc(Join(init), y);
      JoinSnoc(init, y);
    }
  }

  lemma JoinInjective(a: seq<string>, b: seq<string>)
    requires a != [] && b != [] && AllPlain(a) && AllPlain(b) && Join(a) == Join(b)
    ensures a == b
  {
    SplitJoin(a);
    SplitJoin(b);
  }

  lemma {:induction false} JoinConcat(a: seq<string>, b: seq<string>)
    requires a != [] && b != []
    ensures Join(a + b) == Join(a) + "/" + Join(b)
  {
    var n := |b| - 1;
    assert (a + b)[..|a + b| - 1] == a + b[..n];
    if n == 0 {
      assert a + b[..n] == a;
    } else {
      JoinConcat(a, b[..n]);
    }
  }

  /** One path lies strictly below another exactly when the components do. */
  lemma {:induction false} BelowIffPrefix(a: seq<string>, b: seq<string>)
    requires a != [] && b != [] && AllPlain(a) && AllPlain(b)
    ensures Join(a) + "/" <= Join(b) <==> a < b
  {
    if a < b {
      assert b == a + b[|a|..];
      JoinConcat(a, b[|a|..]);
      assert Join(a) + "/" + Join(b[|a|..]) == (Join(a) + "/") + Join(b[|a|..]);
    }
    if Join(a) + "/" <= Join(b) {
      BelowGivesPrefix(a, b);
    }
  }

  lemma {:induction false} BelowGivesPrefix(a: seq<string>, b: seq<string>)
    requires a != [] && b != [] && AllPlain(a) && AllPlain(b)
    requires Join(a) + "/" <= Join(b)
    ensures a < b
  {
    var s, at, n := Join(b), |Join(a)|, |b| - 1;
    assert (Join(a) + "/")[at] == '/';
    assert s[at] == '/' && s[..at] == Join(a) && s[at] in s;
    if n > 0 {
      var x, y := Join(b[..n]), b[n];
      assert s == x + "/" + y;
      if at > |x| {
        SlashInside(x, y, at);
      } else if at == |x| {
        assert s[..at] == x;
        JoinInjective(a, b[..n]);
      } else {
        assert s[..at + 1] == Join(a) + "/" && s[..at + 1] == x[..at + 1];
        BelowGivesPrefix(a, b[..n]);
      }
    }
  }

  lemma SlashInside(x: string, y: string, at: nat)
    requires |x| < at < |x + "/" + y| && (x + "/" + y)[at] == '/'
    ensures !Plain(y)
  {
    assert y[at - |x| - 1] == '/';
  }

  // LIKE.

  /** SQL LIKE with %, _ and the escape character. */
  predicate Like(pattern: string, text: string)
    decreases |pattern|, |text|
  {
    if pattern == "" then text == ""
    else if pattern[0] == '%' then Like(pattern[1..], text) || (text != "" && Like(pattern, text[1..]))
    else if text == "" then false
    else if pattern[0] == '_' then Like(pattern[1..], text[1..])
    else if pattern[0] == '\\' && |pattern| > 1 then text[0] == pattern[1] && Like(pattern[2..], text[1..])
    else text[0] == pattern[0] && Like(pattern[1..], text[1..])
  }

  /** Nothing in s means anything special to LIKE. */
  ghost predicate Literal(s: string) {
    '%' !in s && '_' !in s && '\\' !in s
  }

  lemma {:induction false} PercentMatchesAll(text: string)
    ensures Like("%", text)
    decreases |text|
  {
    if text != "" {
      PercentMatchesAll(text[1..]);
    } else {
      assert Like("%"[1..], text);
    }
  }

  /** A literal followed by % matches exactly the texts that start with it. */
  lemma {:induction false} LikeLiteralPrefix(literal: string, text: string)
    requires Literal(literal)
    ensures Like(literal + "%", text) <==> literal <= text
  {
    if literal == "" {
      assert literal + "%" == "%";
      PercentMatchesAll(text);
    } else {
      var pattern, c := literal + "%", literal[0];
      assert pattern[0] == c && c in literal;
      assert pattern[1..] == literal[1..] + "%";
      if text != "" {
        LikeLiteralPrefix(literal[1..], text[1..]);
        assert literal == [c] + literal[1..] && text == [text[0]] + text[1..];
      }
    }
  }

  /** regexp_replace(path, '^' || old, new) for a pattern of ordinary characters. */
  function ReplacePrefix(path: string, before: string, after: string): string {
    if before <= path then after + path[|before|..] else path
  }

  // Decimal ids.

  function Digit(d: nat): char
    requires d < 10
  {
    "0123456789"[d]
  }

  function Decimal(n: nat): string {
    if n < 10 then [Digit(n)] else Decimal(n / 10) + [Digit(n % 10)]
  }

  ghost predicate Digits(s: string) {
    forall i :: 0 <= i < |s| ==> '0' <= s[i] <= '9'
  }

  lemma {:induction false} DecimalIsDigits(n: nat)
    ensures Decimal(n) != "" && Digits(Decimal(n)) && Plain(Decimal(n)) && Literal(Decimal(n))
  {
    if n >= 10 {
      DecimalIsDigits(n / 10);
    }
  }

  /** The number a decimal text stands for. */
  function Value(s: string): int {
    if s == "" then 0 else 10 * Value(s[..|s| - 1]) + (s[|s| - 1] as int - '0' as int)
  }

  /** A number's decimal text reads back as the number and has no leading zero. */
  lemma {:induction false} DecimalReads(n: nat)
    ensures Value(Decimal(n)) == n && (n > 0 ==> Decimal(n)[0] != '0')
  {
    if n >= 10 {
      DecimalReads(n / 10);
      assert Decimal(n)[..|Decimal(n)| - 1] == Decimal(n / 10);
    } else {
      assert Decimal(n)[..0] == "";
    }
  }

  lemma {:induction false} DecimalInjective(m: nat, n: nat)
    requires Decimal(m) == Decimal(n)
    ensures m == n
  {
    var s := Decimal(m);
    if m >= 10 {
      DecimalIsDigits(m / 10);
    }
    if n >= 10 {
      DecimalIsDigits(n / 10);
    }
    assert s[|s| - 1] == Digit(m % 10) == Digit(n % 10);
    assert m % 10 == n % 10;
    if m >= 10 && n >= 10 {
      assert Decimal(m / 10) == s[..|s| - 1] == Decimal(n / 10);
      DecimalInjective(m / 10, n / 10);
    }
  }
}
