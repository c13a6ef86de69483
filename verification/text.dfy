/** String operations with the meaning JavaScript gives them: `startsWith`,
    `endsWith`, `indexOf`/`lastIndexOf` of one character, `split` on one
    character and `join`, decimal rendering of integers, the first-occurrence
    `replace` of one character, and ASCII `toLowerCase`. */
module Text {
  import opened Optional

  predicate StartsWith(s: string, prefix: string) {
    |prefix| <= |s| && s[..|prefix|] == prefix
  }

  predicate EndsWith(s: string, suffix: string) {
    |suffix| <= |s| && s[|s| - |suffix|..] == suffix
  }

  /** `parts.join(sep)`, unfolded from the last part. */
  function Join(sep: string, parts: seq<string>): string
    decreases |parts|
  {
    if |parts| == 0 then ""
    else if |parts| == 1 then parts[0]
    else Join(sep, parts[..|parts| - 1]) + sep + parts[|parts| - 1]
  }

  lemma JoinSnoc(sep: string, parts: seq<string>, last: string)
    requires |parts| > 0
    ensures Join(sep, parts + [last]) == Join(sep, parts) + sep + last
  {
    assert (parts + [last])[..|parts|] == parts;
  }

  /** Joining one more part of a list's prefix. */
  lemma JoinPrefixStep(sep: string, parts: seq<string>, i: int)
    requires 0 <= i < |parts|
    ensures i == 0 ==> Join(sep, parts[..i + 1]) == parts[0]
    ensures i > 0 ==> Join(sep, parts[..i + 1]) == Join(sep, parts[..i]) + sep + parts[i]
  {
    if i > 0 {
      assert parts[..i + 1] == parts[..i] + [parts[i]];
      JoinSnoc(sep, parts[..i], parts[i]);
    } else {
      assert parts[..1] == [parts[0]];
    }
  }

  /** A string is what comes before an index, the character there, and what
      comes after. */
  lemma Around(s: string, k: int)
    requires 0 <= k < |s|
    ensures s == s[..k] + [s[k]] + s[k + 1..]
  {
    assert s[k..] == [s[k]] + s[k + 1..];
    assert s == s[..k] + s[k..];
  }

  /** Position of the first `c` in `s`, or -1 (`s.indexOf(c)`). */
  function IndexOf(s: string, c: char): (k: int)
    ensures -1 <= k < |s|
    ensures k >= 0 ==> s[k] == c && c !in s[..k]
    ensures k < 0 ==> c !in s
  {
    if |s| == 0 then -1
    else if s[0] == c then 0
    else
      var k := IndexOf(s[1..], c);
      assert k >= 0 ==> s[1..][..k] == s[1..k + 1];
      if k < 0 then -1 else k + 1
  }

  /** Position of the last `c` in `s`, or -1 (`s.lastIndexOf(c)`). */
  function LastIndexOf(s: string, c: char): (k: int)
    ensures -1 <= k < |s|
    ensures k >= 0 ==> s[k] == c && c !in s[k + 1..]
    ensures k < 0 ==> c !in s
  {
    if |s| == 0 then -1
    else if s[|s| - 1] == c then |s| - 1
    else
      var k := LastIndexOf(s[..|s| - 1], c);
      assert k >= 0 ==> s[k + 1..] == s[..|s| - 1][k + 1..] + [s[|s| - 1]];
      assert k < 0 ==> s == s[..|s| - 1] + [s[|s| - 1]];
      k
  }

  /** `s.split(sep)` for a one-character separator: the tokens contain no
      separator and joining them back with it gives `s`; the empty string
      splits into one empty token. */
  function Split(s: string, sep: char): (tokens: seq<string>)
    ensures |tokens| >= 1
    ensures forall i :: 0 <= i < |tokens| ==> sep !in tokens[i]
    ensures Join([sep], tokens) == s
    decreases |s|
  {
    var k := LastIndexOf(s, sep);
    if k < 0 then [s]
    else
      var init := Split(s[..k], sep);
      SplitSnoc(s, sep, k, init);
      init + [s[k + 1..]]
  }

  /** The step of `Split`: the tokens before the last separator, and the
      text after it. */
  lemma SplitSnoc(s: string, sep: char, k: int, init: seq<string>)
    requires 0 <= k < |s| && s[k] == sep && sep !in s[k + 1..]
    requires |init| >= 1 && Join([sep], init) == s[..k]
    requires forall i :: 0 <= i < |init| ==> sep !in init[i]
    ensures var tokens := init + [s[k + 1..]]; forall i :: 0 <= i < |tokens| ==> sep !in tokens[i]
    ensures Join([sep], init + [s[k + 1..]]) == s
  {
    var last := s[k + 1..];
    var tokens := init + [last];
    JoinSnoc([sep], init, last);
    Around(s, k);
    forall i | 0 <= i < |tokens|
      ensures sep !in tokens[i]
    {
      if i < |init| {
        assert tokens[i] == init[i];
      }
    }
  }

  /** The text before the first `sep`, or all of `s` when there is none. */
  function FirstToken(s: string, sep: char): string {
    var k := IndexOf(s, sep);
    if k < 0 then s else s[..k]
  }

  /** The text after the last `sep`, or all of `s` when there is none. */
  function LastToken(s: string, sep: char): string {
    s[LastIndexOf(s, sep) + 1..]
  }

  /** The first `c` is at `a` when `s[a]` is a `c` and nothing before is. */
  lemma {:induction false} IndexOfAt(s: string, c: char, a: int)
    requires 0 <= a < |s| && s[a] == c && c !in s[..a]
    ensures IndexOf(s, c) == a
    decreases a
  {
    if a > 0 {
      assert s[..a][0] == s[0];
      assert s[1..][..a - 1] == s[1..a];
      assert s[..a] == [s[0]] + s[1..a];
      IndexOfAt(s[1..], c, a - 1);
    }
  }

  /** The last `c` is at `a` when `s[a]` is a `c` and nothing after is. */
  lemma {:induction false} LastIndexOfAt(s: string, c: char, a: int)
    requires 0 <= a < |s| && s[a] == c && c !in s[a + 1..]
    ensures LastIndexOf(s, c) == a
    decreases |s| - a
  {
    if a < |s| - 1 {
      var p := s[..|s| - 1];
      assert s[|s| - 1] in s[a + 1..];
      assert p[a + 1..] <= s[a + 1..];
      LastIndexOfAt(p, c, a);
    }
  }

  lemma {:induction false} SplitFirstToken(s: string, sep: char)
    ensures Split(s, sep)[0] == FirstToken(s, sep)
    decreases |s|
  {
    var k := LastIndexOf(s, sep);
    if k >= 0 {
      var p := s[..k];
      SplitFirstToken(p, sep);
      assert Split(s, sep)[0] == Split(p, sep)[0];
      var j := IndexOf(p, sep);
      if j >= 0 {
        assert p[..j] == s[..j];
        IndexOfAt(s, sep, j);
      } else {
        IndexOfAt(s, sep, k);
      }
    }
  }

  /** With no separator, both tokens are the whole string. */
  lemma NoSeparatorTokens(s: string, sep: char)
    requires sep !in s
    ensures FirstToken(s, sep) == s && LastToken(s, sep) == s
  {
  }

  /** With exactly one separator, at `a`, the tokens are the two sides. */
  lemma OneSeparatorTokens(s: string, sep: char, a: int)
    requires 0 <= a < |s| && s[a] == sep && sep !in s[..a] && sep !in s[a + 1..]
    ensures FirstToken(s, sep) == s[..a] && LastToken(s, sep) == s[a + 1..]
  {
    IndexOfAt(s, sep, a);
    LastIndexOfAt(s, sep, a);
  }

  lemma SplitLastToken(s: string, sep: char)
    ensures Split(s, sep)[|Split(s, sep)| - 1] == LastToken(s, sep)
  {
  }

  // Decimal rendering of integers, as `${n}` renders a whole number.

  predicate IsDigit(c: char) {
    '0' <= c <= '9'
  }

  function DigitChar(d: int): (c: char)
    requires 0 <= d < 10
    ensures IsDigit(c) && c as int - '0' as int == d
  {
    ('0' as int + d) as char
  }

  /** The value of a string of decimal digits, most significant first. */
  function DecimalValue(s: string): nat
    requires forall i :: 0 <= i < |s| ==> IsDigit(s[i])
  {
    if |s| == 0 then 0
    else
      assert IsDigit(s[|s| - 1]);
      DecimalValue(s[..|s| - 1]) * 10 + (s[|s| - 1] as int - '0' as int)
  }

  /** The shortest decimal spelling of `n`. */
  function NatToDecimal(n: nat): (s: string)
    ensures |s| >= 1
    ensures forall i :: 0 <= i < |s| ==> IsDigit(s[i])
    ensures s[0] != '0' || n == 0
    ensures DecimalValue(s) == n
  {
    if n < 10 then [DigitChar(n)]
    else
      var s := NatToDecimal(n / 10) + [DigitChar(n % 10)];
      assert s[..|s| - 1] == NatToDecimal(n / 10);
      s
  }

  /** `${n}` for an integral number: a minus sign for negative values. */
  function IntToDecimal(n: int): (s: string)
    ensures |s| >= 1
    ensures forall i :: 0 <= i < |s| ==> IsDigit(s[i]) || (i == 0 && s[i] == '-')
    ensures s[0] == '-' <==> n < 0
  {
    if n < 0 then "-" + NatToDecimal(-n) else NatToDecimal(n)
  }

  /** Reads back what `IntToDecimal` writes; `None` for anything else. */
  function ParseInt(s: string): (r: Option<int>)
  {
    if |s| > 1 && s[0] == '-' && forall i :: 1 <= i < |s| ==> IsDigit(s[i]) then
      var v: int := 0 - DecimalValue(s[1..]) as int;
      Some(v)
    else if |s| > 0 && forall i :: 0 <= i < |s| ==> IsDigit(s[i]) then
      Some(DecimalValue(s))
    else None
  }

  lemma ParseIntRoundTrip(n: int)
    ensures ParseInt(IntToDecimal(n)) == Some(n)
  {
    if n < 0 {
      assert IntToDecimal(n)[1..] == NatToDecimal(-n);
    }
  }

  lemma IntToDecimalHasNoSpace(n: int)
    ensures ' ' !in IntToDecimal(n)
  {
    var s := IntToDecimal(n);
    forall i | 0 <= i < |s|
      ensures s[i] != ' '
    {
      assert IsDigit(s[i]) || s[i] == '-';
    }
  }

  // `replace(' ', '')` and `toLowerCase()`.

  /** `s.replace(c, '')` with a one-character pattern: only the first `c`
      goes. */
  function RemoveFirst(s: string, c: char): (r: string)
    ensures c !in s ==> r == s
    ensures c in s ==> var k := IndexOf(s, c); r == s[..k] + s[k + 1..]
  {
    if |s| == 0 then s
    else if s[0] == c then s[1..]
    else
      var rest := RemoveFirst(s[1..], c);
      RemoveFirstStep(s, c, rest);
      [s[0]] + rest
  }

  /** One step of `RemoveFirst` past a first character that is not `c`. */
  lemma RemoveFirstStep(s: string, c: char, rest: string)
    requires |s| > 0 && s[0] != c
    requires c !in s[1..] ==> rest == s[1..]
    requires c in s[1..] ==> var k := IndexOf(s[1..], c); rest == s[1..][..k] + s[1..][k + 1..]
    ensures c !in s ==> [s[0]] + rest == s
    ensures c in s ==> var k := IndexOf(s, c); [s[0]] + rest == s[..k] + s[k + 1..]
  {
    var t := s[1..];
    if c in s {
      var k := IndexOf(s, c);
      assert k >= 1 && IndexOf(t, c) == k - 1;
      assert c in t by {
        assert t[k - 1] == c;
      }
      assert s[..k] == [s[0]] + t[..k - 1] by {
        assert s == [s[0]] + t;
      }
      assert s[k + 1..] == t[k..];
    } else {
      assert s == [s[0]] + t;
    }
  }

  /** Character by character, removing the first `c` shifts everything
      after it one place left. */
  lemma RemoveFirstAt(s: string, c: char)
    ensures c in s ==> |RemoveFirst(s, c)| == |s| - 1
    ensures c in s ==> forall i {:trigger RemoveFirst(s, c)[i]} :: 0 <= i < |s| - 1 ==>
              RemoveFirst(s, c)[i] == if i < IndexOf(s, c) then s[i] else s[i + 1]
  {
    if c in s {
      DropAt(s, IndexOf(s, c), RemoveFirst(s, c));
    }
  }

  /** Dropping the element at `k` shifts the later ones one place left. */
  lemma DropAt<T>(s: seq<T>, k: int, r: seq<T>)
    requires 0 <= k < |s| && r == s[..k] + s[k + 1..]
    ensures |r| == |s| - 1
    ensures forall i {:trigger r[i]} :: 0 <= i < |s| - 1 ==> r[i] == if i < k then s[i] else s[i + 1]
  {
    forall i | 0 <= i < |s| - 1
      ensures r[i] == if i < k then s[i] else s[i + 1]
    {
      if i < k {
        assert r[i] == s[..k][i];
      } else {
        assert r[i] == s[k + 1..][i - k];
      }
    }
  }

  predicate IsUpper(c: char) {
    'A' <= c <= 'Z'
  }

  function LowerChar(c: char): char {
    if IsUpper(c) then (c as int - 'A' as int + 'a' as int) as char else c
  }

  /** `toLowerCase()`, restricted to the ASCII letters. */
  function ToLower(s: string): (r: string)
    ensures |r| == |s|
    ensures forall i :: 0 <= i < |r| ==> !IsUpper(r[i])
    ensures forall i :: 0 <= i < |r| ==> !IsUpper(s[i]) ==> r[i] == s[i]
    ensures forall i :: 0 <= i < |r| ==> IsUpper(s[i]) ==> r[i] as int == s[i] as int + 32
  {
    seq(|s|, i requires 0 <= i < |s| => LowerChar(s[i]))
  }

  /** Lower-casing keeps every non-letter, so it keeps the spaces. */
  lemma ToLowerKeepsSpaces(s: string)
    ensures ' ' in ToLower(s) <==> ' ' in s
  {
    var r := ToLower(s);
    if ' ' in r {
      var i :| 0 <= i < |r| && r[i] == ' ';
      assert s[i] == ' ';
    }
    if ' ' in s {
      var i :| 0 <= i < |s| && s[i] == ' ';
      assert r[i] == ' ';
    }
  }

  /** Removing the first `c` leaves a `c` exactly when there was a second. */
  lemma RemoveFirstLeaves(s: string, c: char)
    requires c in s
    ensures c in RemoveFirst(s, c) <==> c in s[IndexOf(s, c) + 1..]
  {
    var k := IndexOf(s, c);
    var before := s[..k];
    var after := s[k + 1..];
    assert RemoveFirst(s, c) == before + after;
    assert c !in before;
    assert c in before + after <==> c in before || c in after;
  }

  lemma ToLowerIdempotent(s: string)
    ensures ToLower(ToLower(s)) == ToLower(s)
  {
  }
}
