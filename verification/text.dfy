/** The JavaScript string operations the core relies on: `trim`,
    `startsWith` and `split(' ')`, with the character classes they use. */
module Text {
  import opened Base
  import opened Seqs

  predicate AsciiLetter(c: char) {
    ('a' <= c <= 'z') || ('A' <= c <= 'Z')
  }

  predicate AsciiDigit(c: char) {
    '0' <= c <= '9'
  }

  /** The characters `String.prototype.trim` strips: ECMAScript WhiteSpace
      (tab, vertical tab, form feed, space, no-break space, byte-order mark and
      the space separators) and LineTerminator (LF, CR, U+2028, U+2029). */
  predicate IsJsWhitespace(c: char) {
    var n := c as int;
    n == 0x09 || n == 0x0A || n == 0x0B || n == 0x0C || n == 0x0D || n == 0x20
    || n == 0xA0 || n == 0x1680 || (0x2000 <= n <= 0x200A)
    || n == 0x2028 || n == 0x2029 || n == 0x202F || n == 0x205F || n == 0x3000
    || n == 0xFEFF
  }

  predicate AllWhitespace(s: string) {
    forall i | 0 <= i < |s| :: IsJsWhitespace(s[i])
  }

  /** The length of the whitespace run that starts `s`. */
  function LeadingWhitespace(s: string): (n: nat)
    ensures n <= |s|
  {
    if |s| > 0 && IsJsWhitespace(s[0]) then LeadingWhitespace(s[1..]) + 1 else 0
  }

  /** The length of the whitespace run that ends `s`. */
  function TrailingWhitespace(s: string): (n: nat)
    ensures n <= |s|
  {
    if |s| > 0 && IsJsWhitespace(s[|s| - 1]) then TrailingWhitespace(s[..|s| - 1]) + 1 else 0
  }

  /** The leading run is all whitespace and is followed by a non-whitespace character. */
  lemma {:induction false} LeadingWhitespaceSpec(s: string)
    ensures forall i | 0 <= i < LeadingWhitespace(s) :: IsJsWhitespace(s[i])
    ensures LeadingWhitespace(s) < |s| ==> !IsJsWhitespace(s[LeadingWhitespace(s)])
  {
    if |s| > 0 && IsJsWhitespace(s[0]) {
      var t := s[1..];
      LeadingWhitespaceSpec(t);
      assert forall i | 1 <= i < LeadingWhitespace(s) :: t[i - 1] == s[i];
    }
  }

  /** The trailing run is all whitespace and is preceded by a non-whitespace character. */
  lemma {:induction false} TrailingWhitespaceSpec(s: string)
    ensures forall i | |s| - TrailingWhitespace(s) <= i < |s| :: IsJsWhitespace(s[i])
    ensures TrailingWhitespace(s) < |s| ==> !IsJsWhitespace(s[|s| - TrailingWhitespace(s) - 1])
  {
    if |s| > 0 && IsJsWhitespace(s[|s| - 1]) {
      var t := s[..|s| - 1];
      TrailingWhitespaceSpec(t);
      assert forall i | |t| - TrailingWhitespace(t) <= i < |t| :: t[i] == s[i];
    }
  }

  /** Leading whitespace removed. */
  function TrimStart(s: string): (r: string)
    ensures |r| <= |s|
  {
    s[LeadingWhitespace(s)..]
  }

  /** Trailing whitespace removed. */
  function TrimEnd(s: string): (r: string)
    ensures |r| <= |s|
  {
    s[..|s| - TrailingWhitespace(s)]
  }

  /** `TrimStart` keeps a suffix and cuts only whitespace. */
  lemma TrimStartSpec(s: string)
    ensures TrimStart(s) == s[|s| - |TrimStart(s)|..]
    ensures forall i | 0 <= i < |s| - |TrimStart(s)| :: IsJsWhitespace(s[i])
    ensures TrimStart(s) == [] || !IsJsWhitespace(TrimStart(s)[0])
  {
    LeadingWhitespaceSpec(s);
  }

  /** `TrimEnd` keeps a prefix and cuts only whitespace. */
  lemma TrimEndSpec(s: string)
    ensures TrimEnd(s) == s[..|TrimEnd(s)|]
    ensures forall i | |TrimEnd(s)| <= i < |s| :: IsJsWhitespace(s[i])
    ensures TrimEnd(s) == [] || !IsJsWhitespace(TrimEnd(s)[|TrimEnd(s)| - 1])
  {
    TrailingWhitespaceSpec(s);
  }

  /** `s.trim()`. */
  function Trim(s: string): string {
    TrimEnd(TrimStart(s))
  }

  /** `r` is `s` with the whitespace before position `k` and after `k + |r|` cut off. */
  predicate TrimmedAt(s: string, r: string, k: int) {
    && 0 <= k <= k + |r| <= |s|
    && r == s[k..k + |r|]
    && (forall i | 0 <= i < k :: IsJsWhitespace(s[i]))
    && (forall i | k + |r| <= i < |s| :: IsJsWhitespace(s[i]))
  }

  /** A prefix of a suffix is an infix. */
  lemma PrefixOfSuffix(s: string, a: string, r: string)
    requires |a| <= |s| && a == s[|s| - |a|..]
    requires |r| <= |a| && r == a[..|r|]
    ensures s[|s| - |a|..|s| - |a| + |r|] == r
  {
  }

  /** The cut made by `trim` starts where `TrimStart` stopped. */
  lemma TrimInfix(s: string)
    ensures TrimmedAt(s, Trim(s), |s| - |TrimStart(s)|)
  {
    var a := TrimStart(s);
    var r := TrimEnd(a);
    var k := |s| - |a|;
    TrimStartSpec(s);
    TrimEndSpec(a);
    PrefixOfSuffix(s, a, r);
    forall i | k + |r| <= i < |s| ensures IsJsWhitespace(s[i]) {
      var j := i - k;
      assert |r| <= j < |a|;
      assert IsJsWhitespace(a[j]);
      assert a[j] == s[i];
    }
  }

  /** `trim` cuts whitespace off both ends and nothing else: the result is an
      infix of the input, surrounded only by whitespace, and neither begins
      nor ends with whitespace. It is empty exactly when the input is all
      whitespace. */
  lemma TrimSpec(s: string)
    ensures exists k :: TrimmedAt(s, Trim(s), k)
    ensures Trim(s) == [] || (!IsJsWhitespace(Trim(s)[0]) && !IsJsWhitespace(Trim(s)[|Trim(s)| - 1]))
    ensures Trim(s) == [] <==> AllWhitespace(s)
  {
    var r := Trim(s);
    var k := |s| - |TrimStart(s)|;
    TrimInfix(s);
    TrimStartSpec(s);
    TrimEndSpec(TrimStart(s));
    if r != [] {
      assert r[0] == TrimStart(s)[0];
      assert r[0] == s[k];
    }
  }

  /** Trimming twice is trimming once. */
  lemma TrimIdempotent(s: string)
    ensures Trim(Trim(s)) == Trim(s)
  {
    var r := Trim(s);
    assert r == [] || (!IsJsWhitespace(r[0]) && !IsJsWhitespace(r[|r| - 1])) by { TrimSpec(s); }
    assert LeadingWhitespace(r) == 0;
    assert TrimStart(r) == r;
    assert TrailingWhitespace(r) == 0;
    assert TrimEnd(r) == r;
  }

  /** `s.startsWith(prefix)` (case-sensitive). */
  predicate StartsWith(s: string, prefix: string) {
    prefix <= s
  }

  /** `s.split(' ')`: the fields between single spaces, in order. There is
      always at least one field, and no field contains a space. */
  function Split(s: string): (fields: seq<string>)
    ensures |fields| >= 1
    ensures forall i | 0 <= i < |fields| :: ' ' !in fields[i]
    decreases |s|
  {
    match IndexOf(s, ' ')
    case None => [s]
    case Some(i) =>
      assert ' ' !in s[..i] by {
        forall k | 0 <= k < i ensures s[..i][k] != ' ' {
          assert s[..i][k] == s[k];
        }
      }
      [s[..i]] + Split(s[i + 1..])
  }

  /** `fields.join(' ')`. */
  function Join(fields: seq<string>): string
    requires |fields| >= 1
  {
    if |fields| == 1 then fields[0] else fields[0] + " " + Join(fields[1..])
  }

  /** Splitting and joining on a space gives back the original string. */
  lemma {:induction false} JoinSplit(s: string)
    ensures Join(Split(s)) == s
    decreases |s|
  {
    match IndexOf(s, ' ')
    case None =>
    case Some(i) =>
      JoinSplit(s[i + 1..]);
      var fields := Split(s);
      assert fields[1..] == Split(s[i + 1..]);
      assert s == s[..i] + " " + s[i + 1..];
  }

  /** A space-free first field followed by a space splits off first. */
  lemma SplitCons(first: string, rest: string)
    requires ' ' !in first
    ensures Split(first + " " + rest) == [first] + Split(rest)
  {
    var s := first + " " + rest;
    assert s[|first|] == ' ';
    assert forall k | 0 <= k < |first| :: s[k] == first[k];
    assert IndexOf(s, ' ') == Some(|first|);
    assert s[..|first|] == first;
    assert s[|first| + 1..] == rest;
  }

  /** A string without a space is a single field. */
  lemma SplitSingle(s: string)
    requires ' ' !in s
    ensures Split(s) == [s]
  {
    assert IndexOf(s, ' ') == None;
  }

  /** Joining space-free fields and splitting again gives back the fields. */
  lemma {:induction false} SplitJoin(fields: seq<string>)
    requires |fields| >= 1
    requires forall i | 0 <= i < |fields| :: ' ' !in fields[i]
    ensures Split(Join(fields)) == fields
    decreases |fields|
  {
    if |fields| > 1 {
      var f := fields[0];
      var rest := Join(fields[1..]);
      var s := f + " " + rest;
      assert s[|f|] == ' ';
      assert forall k | 0 <= k < |f| :: s[k] == f[k];
      assert IndexOf(s, ' ') == Some(|f|);
      assert s[..|f|] == f;
      assert s[|f| + 1..] == rest;
      SplitJoin(fields[1..]);
      assert fields == [f] + fields[1..];
    } else {
      assert IndexOf(fields[0], ' ') == None;
    }
  }
}
