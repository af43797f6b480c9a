/** The address check of the contact form: the pattern
    `^[^\s@]+@[^\s@]+\.[^\s@]+$` applied to the whole email field, its
    structural reading (one `@`, no white space, a non-empty local part, a
    domain with an inner `.`), and a single-pass scanner that decides it. */
module Email {

  /** JavaScript's `\s`: the WhiteSpace and LineTerminator code points of
      ECMAScript (tab, line feed, vertical tab, form feed, carriage return,
      space, no-break space, the Unicode space separators, line and paragraph
      separator, and the byte-order mark). */
  predicate IsSpace(c: char) {
    || c == '\t' || c == '\n' || c == '\U{000B}' || c == '\U{000C}' || c == '\r'
    || c == ' ' || c == '\U{00A0}' || c == '\U{1680}'
    || ('\U{2000}' <= c <= '\U{200A}')
    || c == '\U{2028}' || c == '\U{2029}' || c == '\U{202F}' || c == '\U{205F}'
    || c == '\U{3000}' || c == '\U{FEFF}'
  }

  /** The bracket class `[^\s@]`. */
  predicate InClass(c: char) {
    !IsSpace(c) && c != '@'
  }

  /** `[^\s@]+`: a non-empty run of class characters. */
  predicate IsRun(t: string) {
    |t| > 0 && forall i | 0 <= i < |t| :: InClass(t[i])
  }

  /** One way of matching `^[^\s@]+@[^\s@]+\.[^\s@]+$`: the `@` at `at` and
      the separating `.` at `dot` cut the whole string into three runs. */
  predicate SplitsAt(s: string, at: int, dot: int) {
    && 0 < at && at + 1 < dot && dot + 1 < |s|
    && s[at] == '@' && s[dot] == '.'
    && IsRun(s[..at]) && IsRun(s[at + 1..dot]) && IsRun(s[dot + 1..])
  }

  /** The anchored pattern `^[^\s@]+@[^\s@]+\.[^\s@]+$` matches the whole
      string. Backtracking lets the middle run hold dots of its own, so any
      suitable `.` may serve as the separator. */
  predicate MatchesPattern(s: string) {
    exists at, dot | 0 < at < |s| && 0 < dot < |s| :: SplitsAt(s, at, dot)
  }

  /** Number of occurrences of `c` in `s`. */
  function Count(s: string, c: char): nat {
    if |s| == 0 then 0
    else Count(s[..|s| - 1], c) + (if s[|s| - 1] == c then 1 else 0)
  }

  /** A domain part with a `.` that is neither its first nor its last character. */
  predicate HasInnerDot(domain: string) {
    exists k | 0 < k < |domain| - 1 :: domain[k] == '.'
  }

  /** The structural description of an acceptable address: exactly one `@`,
      no white space, a non-empty part before the `@`, and a part after it
      that has an inner dot. */
  predicate WellFormed(s: string) {
    && Count(s, '@') == 1
    && (forall i | 0 <= i < |s| :: !IsSpace(s[i]))
    && exists at | 0 <= at < |s| :: s[at] == '@' && at > 0 && HasInnerDot(s[at + 1..])
  }

  lemma {:induction false} CountAppend(a: string, b: string, c: char)
    ensures Count(a + b, c) == Count(a, c) + Count(b, c)
    decreases |b|
  {
    if |b| == 0 {
      assert a + b == a;
    } else {
      assert (a + b)[..|a + b| - 1] == a + b[..|b| - 1];
      CountAppend(a, b[..|b| - 1], c);
    }
  }

  lemma {:induction false} CountAbsent(s: string, c: char)
    requires forall i | 0 <= i < |s| :: s[i] != c
    ensures Count(s, c) == 0
  {
    if |s| > 0 {
      CountAbsent(s[..|s| - 1], c);
    }
  }

  lemma {:induction false} CountPresent(s: string, c: char, j: int)
    requires 0 <= j < |s| && s[j] == c
    ensures Count(s, c) >= 1
  {
    if j < |s| - 1 {
      CountPresent(s[..|s| - 1], c, j);
    }
  }

  /** The count splits around any position. */
  lemma CountAround(s: string, c: char, p: int)
    requires 0 <= p < |s|
    ensures Count(s, c) == Count(s[..p], c) + (if s[p] == c then 1 else 0) + Count(s[p + 1..], c)
  {
    assert s == s[..p] + [s[p]] + s[p + 1..];
    CountAppend(s[..p] + [s[p]], s[p + 1..], c);
    CountAppend(s[..p], [s[p]], c);
    assert Count([s[p]], c) == Count([], c) + (if s[p] == c then 1 else 0) by {
      assert [s[p]][..0] == [];
    }
  }

  /** With exactly one `c` in `s`, at position `p`, no other position holds `c`. */
  lemma SoleOccurrence(s: string, c: char, p: int)
    requires 0 <= p < |s| && s[p] == c && Count(s, c) == 1
    ensures forall i | 0 <= i < |s| && i != p :: s[i] != c
  {
    CountAround(s, c, p);
    forall i | 0 <= i < |s| && i != p
      ensures s[i] != c
    {
      if s[i] == c {
        if i < p {
          CountPresent(s[..p], c, i);
        } else {
          CountPresent(s[p + 1..], c, i - p - 1);
        }
      }
    }
  }

  /** A string with one `c` at `p` and none elsewhere counts `c` once. */
  lemma CountOnce(s: string, c: char, p: int)
    requires 0 <= p < |s| && s[p] == c
    requires forall i | 0 <= i < |s| && i != p :: s[i] != c
    ensures Count(s, c) == 1
  {
    CountAround(s, c, p);
    CountAbsent(s[..p], c);
    CountAbsent(s[p + 1..], c);
  }

  /** A match pins down every character: each position is the `@`, the
      separating `.`, or a class character. */
  lemma MatchLayout(s: string, at: int, dot: int)
    requires SplitsAt(s, at, dot)
    ensures forall i | 0 <= i < |s| && i != at :: InClass(s[i])
  {
    var local, middle, top := s[..at], s[at + 1..dot], s[dot + 1..];
    forall i | 0 <= i < |s| && i != at
      ensures InClass(s[i])
    {
      if i < at {
        assert local[i] == s[i];
      } else if i < dot {
        assert middle[i - at - 1] == s[i];
      } else if i > dot {
        assert top[i - dot - 1] == s[i];
      }
    }
  }

  /** Conversely, an `@` and a later inner `.` with class characters
      everywhere else make a match. */
  lemma LayoutMatch(s: string, at: int, dot: int)
    requires 0 < at && at + 1 < dot && dot + 1 < |s|
    requires s[at] == '@' && s[dot] == '.'
    requires forall i | 0 <= i < |s| && i != at :: InClass(s[i])
    ensures SplitsAt(s, at, dot) && MatchesPattern(s)
  {
    var local, middle, top := s[..at], s[at + 1..dot], s[dot + 1..];
    forall i | 0 <= i < |local| ensures InClass(local[i]) {
      assert local[i] == s[i];
    }
    forall i | 0 <= i < |middle| ensures InClass(middle[i]) {
      assert middle[i] == s[at + 1 + i];
    }
    forall i | 0 <= i < |top| ensures InClass(top[i]) {
      assert top[i] == s[dot + 1 + i];
    }
    assert 0 < at < |s| && 0 < dot < |s| && SplitsAt(s, at, dot);
  }

  /** The pattern accepts exactly the structurally well-formed addresses. */
  lemma PatternIffWellFormed(s: string)
    ensures MatchesPattern(s) <==> WellFormed(s)
  {
    if MatchesPattern(s) {
      var at, dot :| 0 < at < |s| && 0 < dot < |s| && SplitsAt(s, at, dot);
      MatchLayout(s, at, dot);
      CountOnce(s, '@', at);
      var domain := s[at + 1..];
      assert domain[dot - at - 1] == '.';
    }
    if WellFormed(s) {
      var at :| 0 <= at < |s| && s[at] == '@' && at > 0 && HasInnerDot(s[at + 1..]);
      var domain := s[at + 1..];
      var k :| 0 < k < |domain| - 1 && domain[k] == '.';
      assert domain[k] == s[at + 1 + k];
      SoleOccurrence(s, '@', at);
      LayoutMatch(s, at, at + 1 + k);
    }
  }

  lemma NoMatchWithSpace(s: string, i: int)
    requires 0 <= i < |s| && IsSpace(s[i])
    ensures !MatchesPattern(s)
  {
    if MatchesPattern(s) {
      var at, dot :| 0 < at < |s| && 0 < dot < |s| && SplitsAt(s, at, dot);
      MatchLayout(s, at, dot);
    }
  }

  lemma NoMatchWithTwoAts(s: string, i: int, j: int)
    requires 0 <= i < j < |s| && s[i] == '@' && s[j] == '@'
    ensures !MatchesPattern(s)
  {
    if MatchesPattern(s) {
      var at, dot :| 0 < at < |s| && 0 < dot < |s| && SplitsAt(s, at, dot);
      MatchLayout(s, at, dot);
    }
  }

  /** Decides the pattern with one pass that rejects white space or a second
      `@` and remembers the `@`, then a search for a `.` strictly inside the
      domain part. */
  method ScanEmail(s: string) returns (ok: bool)
    ensures ok <==> MatchesPattern(s)
  {
    var at := -1;
    var i := 0;
    while i < |s|
      invariant 0 <= i <= |s|
      invariant forall j | 0 <= j < i :: !IsSpace(s[j])
      invariant at == -1 ==> forall j | 0 <= j < i :: s[j] != '@'
      invariant at != -1 ==> 0 <= at < i && s[at] == '@'
      invariant at != -1 ==> forall j | 0 <= j < i && j != at :: s[j] != '@'
    {
      if IsSpace(s[i]) {
        NoMatchWithSpace(s, i);
        return false;
      }
      if s[i] == '@' {
        if at != -1 {
          NoMatchWithTwoAts(s, at, i);
          return false;
        }
        at := i;
      }
      i := i + 1;
    }
    if at <= 0 {
      return false;
    }
    var dot := at + 2;
    while dot < |s| - 1
      invariant at + 2 <= dot
      invariant forall j | at + 2 <= j < dot && j < |s| :: s[j] != '.'
    {
      if s[dot] == '.' {
        LayoutMatch(s, at, dot);
        return true;
      }
      dot := dot + 1;
    }
    return false;
  }

  /** The sample addresses: no dot after the `@` is rejected, a plain
      address is accepted, a doubled `@` and an embedded space are rejected. */
  lemma Samples()
    ensures !MatchesPattern("a@b")
    ensures MatchesPattern("a@b.com")
    ensures !MatchesPattern("a@@b.com")
    ensures !MatchesPattern("a b@c.d")
  {
    LayoutMatch("a@b.com", 1, 3);
    NoMatchWithTwoAts("a@@b.com", 1, 2);
    NoMatchWithSpace("a b@c.d", 1);
  }

}
