/** String helpers shared by the backend and the frontend: JavaScript's whitespace and
    `trim`, the whitespace-run replacement of the create page, lower-casing, and PHP's
    rendering of a counter as decimal digits. Strings are sequences of code points. */
module Text {

  /** ECMAScript WhiteSpace and LineTerminator code points: exactly what
      `String.prototype.trim` strips and what the regular-expression class `\s` matches. */
  predicate IsSpace(c: char) {
    || c == '\t' || c == '\n' || c == '\U{000B}' || c == '\U{000C}' || c == '\r' || c == ' '
    || c == '\U{00A0}' || c == '\U{1680}' || ('\U{2000}' <= c <= '\U{200A}')
    || c == '\U{2028}' || c == '\U{2029}' || c == '\U{202F}' || c == '\U{205F}'
    || c == '\U{3000}' || c == '\U{FEFF}'
  }

  /** `toLowerCase` on one character, for the ASCII letters (see README, Left out). */
  function LowerChar(c: char): (d: char)
    ensures IsSpace(d) <==> IsSpace(c)
    ensures 'A' <= c <= 'Z' ==> 'a' <= d <= 'z'
    ensures !('A' <= c <= 'Z') ==> d == c
  {
    if 'A' <= c <= 'Z' then (c as int + 32) as char else c
  }

  function Lower(s: string): string {
    seq(|s|, i requires 0 <= i < |s| => LowerChar(s[i]))
  }

  /** The length of the longest all-whitespace prefix of `s`. */
  function LeadingSpaces(s: string): (n: nat)
    ensures n <= |s|
    ensures forall i :: 0 <= i < n ==> IsSpace(s[i])
    ensures n < |s| ==> !IsSpace(s[n])
  {
    if s == [] || !IsSpace(s[0]) then 0 else 1 + LeadingSpaces(s[1..])
  }

  /** The length of the longest all-whitespace suffix of `s`. */
  function TrailingSpaces(s: string): (n: nat)
    ensures n <= |s|
    ensures forall i :: |s| - n <= i < |s| ==> IsSpace(s[i])
    ensures n < |s| ==> !IsSpace(s[|s| - 1 - n])
  {
    if s == [] || !IsSpace(s[|s| - 1]) then 0 else 1 + TrailingSpaces(s[..|s| - 1])
  }

  /** `String.prototype.trim`: the slice of `s` between its leading and trailing whitespace.
      It is empty exactly when `s` holds nothing but whitespace, and otherwise starts and ends
      with a non-whitespace character. */
  function Trim(s: string): (r: string)
    ensures LeadingSpaces(s) + |r| <= |s|
    ensures r == s[LeadingSpaces(s)..LeadingSpaces(s) + |r|]
    ensures forall i :: LeadingSpaces(s) + |r| <= i < |s| ==> IsSpace(s[i])
    ensures r != [] ==> !IsSpace(r[0]) && !IsSpace(r[|r| - 1])
    ensures r == [] <==> forall i :: 0 <= i < |s| ==> IsSpace(s[i])
  {
    var lead := LeadingSpaces(s);
    var t := s[lead..];
    var r := t[..|t| - TrailingSpaces(t)];
    r
  }

  /** Trimming twice is trimming once. */
  lemma TrimIdempotent(s: string)
    ensures Trim(Trim(s)) == Trim(s)
  {
    var r := Trim(s);
    if r != [] {
      assert LeadingSpaces(r) == 0;
      assert TrailingSpaces(r) == 0;
    }
  }

  /** Lower-casing keeps whitespace where it was, so a string that lower-cases like a
      trimmed, non-empty string is itself trimmed. */
  lemma TrimmedLikeLowerTwin(a: string, b: string)
    requires a != [] && Trim(a) == a && Lower(a) == Lower(b)
    ensures Trim(b) == b
  {
    assert |b| == |Lower(b)| == |a|;
    assert LowerChar(a[0]) == Lower(a)[0] == Lower(b)[0] == LowerChar(b[0]);
    assert LowerChar(a[|a| - 1]) == Lower(a)[|a| - 1] == Lower(b)[|b| - 1] == LowerChar(b[|b| - 1]);
    assert LeadingSpaces(b) == 0;
    assert TrailingSpaces(b) == 0;
  }

  /** `replace(/\s+/g, '-')`: every maximal run of whitespace becomes a single hyphen, so
      the result holds no whitespace, and a string without whitespace is left as it is. */
  function CollapseSpaces(s: string): (r: string)
    ensures |r| <= |s|
    ensures r == [] <==> s == []
    ensures forall i :: 0 <= i < |r| ==> !IsSpace(r[i])
    ensures forall i :: 0 <= i < |r| ==> r[i] == '-' || r[i] in s
    ensures (forall i :: 0 <= i < |s| ==> !IsSpace(s[i])) ==> r == s
    decreases |s|
  {
    if s == [] then []
    else if IsSpace(s[0]) then "-" + CollapseSpaces(s[LeadingSpaces(s)..])
    else [s[0]] + CollapseSpaces(s[1..])
  }

  /** Leading whitespace of a string that has a non-space character is not affected by what
      follows it. */
  lemma {:induction false} LeadingSpacesOfConcat(a: string, b: string)
    requires LeadingSpaces(a) < |a|
    ensures LeadingSpaces(a + b) == LeadingSpaces(a)
    ensures (a + b)[LeadingSpaces(a)..] == a[LeadingSpaces(a)..] + b
  {
    if IsSpace(a[0]) {
      assert (a + b)[1..] == a[1..] + b;
      LeadingSpacesOfConcat(a[1..], b);
    }
  }

  /** One step of the replacement on a string, and on its concatenation with another, when
      the string starts with a whitespace run that ends inside it. */
  lemma CollapseSpacesSpaceStep(a: string, b: string)
    requires a != [] && IsSpace(a[0]) && LeadingSpaces(a) < |a|
    ensures CollapseSpaces(a) == "-" + CollapseSpaces(a[LeadingSpaces(a)..])
    ensures CollapseSpaces(a + b) == "-" + CollapseSpaces(a[LeadingSpaces(a)..] + b)
  {
    LeadingSpacesOfConcat(a, b);
    assert (a + b)[0] == a[0];
  }

  /** One step of the replacement on a string, and on its concatenation with another, when
      the string starts with a non-space character. */
  lemma CollapseSpacesCharStep(a: string, b: string)
    requires a != [] && !IsSpace(a[0])
    ensures CollapseSpaces(a) == [a[0]] + CollapseSpaces(a[1..])
    ensures CollapseSpaces(a + b) == [a[0]] + CollapseSpaces(a[1..] + b)
  {
    assert (a + b)[0] == a[0];
    assert (a + b)[1..] == a[1..] + b;
  }

  /** Putting the same head in front of both sides of a concatenation. */
  lemma ConcatAfterHead(head: string, whole: string, joined: string, rest: string, restJoined: string, tail: string)
    requires whole == head + rest && joined == head + restJoined && restJoined == rest + tail
    ensures joined == whole + tail
  {
  }

  /** The replacement works part by part: the replacement of a string that ends in a
      non-space character is followed by the replacement of whatever comes after it. */
  lemma {:induction false} CollapseSpacesOfConcat(a: string, b: string)
    requires a == [] || !IsSpace(a[|a| - 1])
    ensures CollapseSpaces(a + b) == CollapseSpaces(a) + CollapseSpaces(b)
    decreases |a|
  {
    if a == [] {
      assert a + b == b;
    } else {
      var n := if IsSpace(a[0]) then LeadingSpaces(a) else 1;
      var rest := a[n..];
      assert rest == [] || rest[|rest| - 1] == a[|a| - 1];
      CollapseSpacesOfConcat(rest, b);
      var head := if IsSpace(a[0]) then "-" else [a[0]];
      if IsSpace(a[0]) {
        CollapseSpacesSpaceStep(a, b);
      } else {
        CollapseSpacesCharStep(a, b);
      }
      ConcatAfterHead(head, CollapseSpaces(a), CollapseSpaces(a + b), CollapseSpaces(rest),
        CollapseSpaces(rest + b), CollapseSpaces(b));
    }
  }

  /** The whitespace prefix of a run followed by a non-space character is the run. */
  lemma {:induction false} LeadingSpacesOfRun(w: string, b: string)
    requires forall i :: 0 <= i < |w| ==> IsSpace(w[i])
    requires b == [] || !IsSpace(b[0])
    ensures LeadingSpaces(w + b) == |w|
    ensures (w + b)[|w|..] == b
  {
    if w != [] {
      assert (w + b)[0] == w[0];
      assert (w + b)[1..] == w[1..] + b;
      LeadingSpacesOfRun(w[1..], b);
    }
  }

  /** A whitespace run, up to the next non-space character or the end, becomes exactly one
      `-`, and what follows the run is replaced on its own. */
  lemma CollapseSpacesOfRun(w: string, b: string)
    requires w != [] && forall i :: 0 <= i < |w| ==> IsSpace(w[i])
    requires b == [] || !IsSpace(b[0])
    ensures CollapseSpaces(w + b) == "-" + CollapseSpaces(b)
  {
    LeadingSpacesOfRun(w, b);
    assert (w + b)[0] == w[0];
  }

  /** A non-space character is kept, in front of the replacement of what follows it. */
  lemma CollapseSpacesOfChar(c: char, b: string)
    requires !IsSpace(c)
    ensures CollapseSpaces([c] + b) == [c] + CollapseSpaces(b)
  {
    assert ([c] + b)[1..] == b;
  }

  function DigitChar(d: nat): (c: char)
    requires d < 10
    ensures '0' <= c <= '9'
  {
    (48 + d) as char
  }

  /** PHP's conversion of a non-negative integer to a string, as in `'-' . $count`:
      at least one character, all of them decimal digits. */
  function Decimal(n: nat): (r: string)
    ensures |r| >= 1
    ensures forall i :: 0 <= i < |r| ==> '0' <= r[i] <= '9'
    ensures n < 10 <==> |r| == 1
    ensures r[|r| - 1] == DigitChar(n % 10)
  {
    if n < 10 then [DigitChar(n)] else Decimal(n / 10) + [DigitChar(n % 10)]
  }

  /** Different counters give different strings. */
  lemma {:induction false} DecimalInjective(a: nat, b: nat)
    requires Decimal(a) == Decimal(b)
    ensures a == b
  {
    if a >= 10 && b >= 10 {
      var da := Decimal(a);
      assert Decimal(a / 10) == da[..|da| - 1];
      assert Decimal(b / 10) == da[..|da| - 1];
      DecimalInjective(a / 10, b / 10);
      assert DigitChar(a % 10) == DigitChar(b % 10);
    }
  }
}
