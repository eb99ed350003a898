/**
  The e-mail pattern of the form validator, /^[^\s@]+@[^\s@]+\.[^\s@]+$/: the
  language it denotes, a direct description of the strings it accepts, and the
  left-to-right test the validator runs, proved to accept exactly that language.
*/
module EmailPattern {
  import opened Text

  /** One character of the class [^\s@]. */
  predicate SegmentChar(c: char) {
    !IsSpace(c) && c != '@'
  }

  /** The piece [^\s@]+ : a non-empty run of segment characters. */
  predicate Segment(t: string) {
    |t| >= 1 && forall k | 0 <= k < |t| :: SegmentChar(t[k])
  }

  /** The anchored pattern: the whole string splits as
      segment, '@', segment, '.', segment, where `a` is the position of the '@'
      and `d` the position of the literal dot. */
  predicate MatchesEmailRegex(s: string) {
    exists a, d | 0 < a < |s| && a < d < |s| ::
      && Segment(s[..a]) && s[a] == '@'
      && Segment(s[a + 1..d]) && s[d] == '.'
      && Segment(s[d + 1..])
  }

  /** The same language described directly: no whitespace, exactly one '@',
      and not at the start, and after it a dot that is neither right after the
      '@' nor the last character. Further dots on either side are allowed. */
  predicate HasEmailShape(s: string) {
    && (forall k | 0 <= k < |s| :: !IsSpace(s[k]))
    && exists at | 0 < at < |s| ::
      && s[at] == '@'
      && (forall k | 0 <= k < |s| && k != at :: s[k] != '@')
      && exists d | at + 1 < d < |s| - 1 :: s[d] == '.'
  }

  lemma EmailRegexIff(s: string)
    ensures MatchesEmailRegex(s) <==> HasEmailShape(s)
  {
    if MatchesEmailRegex(s) {
      var a, d :| 0 < a < |s| && a < d < |s|
        && Segment(s[..a]) && s[a] == '@'
        && Segment(s[a + 1..d]) && s[d] == '.'
        && Segment(s[d + 1..]);
      forall k | 0 <= k < |s| ensures !IsSpace(s[k]) && (k != a ==> s[k] != '@') {
        if k < a {
          assert s[k] == s[..a][k];
        } else if a < k < d {
          assert s[k] == s[a + 1..d][k - a - 1];
        } else if d < k {
          assert s[k] == s[d + 1..][k - d - 1];
        }
      }
      assert |s[a + 1..d]| >= 1 && |s[d + 1..]| >= 1;
      assert s[a] == '@' && a + 1 < d < |s| - 1 && s[d] == '.';
    }
    if HasEmailShape(s) {
      var at :| 0 < at < |s| && s[at] == '@'
        && (forall k | 0 <= k < |s| && k != at :: s[k] != '@')
        && exists d | at + 1 < d < |s| - 1 :: s[d] == '.';
      var d :| at + 1 < d < |s| - 1 && s[d] == '.';
      SegmentOf(s, 0, at);
      SegmentOf(s, at + 1, d);
      SegmentOf(s, d + 1, |s|);
    }
  }

  /** A non-empty slice free of whitespace and '@' is a segment. */
  lemma SegmentOf(s: string, i: nat, j: nat)
    requires i < j <= |s|
    requires forall k | i <= k < j :: SegmentChar(s[k])
    ensures Segment(s[i..j])
  {
    var t := s[i..j];
    forall k | 0 <= k < |t| ensures SegmentChar(t[k]) {
      assert t[k] == s[i + k];
    }
  }

  /** Whether `s` has no occurrence of `c`. */
  predicate Lacks(s: string, c: char) {
    s == [] || (s[0] != c && Lacks(s[1..], c))
  }

  /** Whether `s` has no whitespace. */
  predicate NoSpace(s: string) {
    s == [] || (!IsSpace(s[0]) && NoSpace(s[1..]))
  }

  /** A helper of the scan below: the position of the first `c` in `s`, or
      |s| when there is none. */
  function FirstIndex(s: string, c: char): (i: nat)
    ensures i <= |s|
    ensures i < |s| ==> s[i] == c
    ensures forall k | 0 <= k < i :: s[k] != c
  {
    if s == [] then 0 else if s[0] == c then 0 else 1 + FirstIndex(s[1..], c)
  }

  lemma {:induction false} LacksIff(s: string, c: char)
    ensures Lacks(s, c) <==> forall k | 0 <= k < |s| :: s[k] != c
  {
    if s != [] {
      LacksIff(s[1..], c);
      assert forall k | 1 <= k < |s| :: s[k] == s[1..][k - 1];
    }
  }

  lemma {:induction false} NoSpaceIff(s: string)
    ensures NoSpace(s) <==> forall k | 0 <= k < |s| :: !IsSpace(s[k])
  {
    if s != [] {
      NoSpaceIff(s[1..]);
      assert forall k | 1 <= k < |s| :: s[k] == s[1..][k - 1];
    }
  }

  /** The pattern above decided by a scan, standing in for
      RegExp.prototype.test: no whitespace, a first '@' that is not the first
      character, no other '@' after it, and a dot strictly between the
      character after the '@' and the last character. */
  predicate EmailTest(s: string) {
    var at := FirstIndex(s, '@');
    && NoSpace(s)
    && 0 < at && at + 3 <= |s|
    && Lacks(s[at + 1..], '@')
    && !Lacks(s[at + 2..|s| - 1], '.')
  }

  /** The scan accepts exactly the strings of the e-mail shape. */
  lemma EmailTestIff(s: string)
    ensures EmailTest(s) <==> HasEmailShape(s)
  {
    NoSpaceIff(s);
    var at := FirstIndex(s, '@');
    if at + 3 <= |s| {
      var tail := s[at + 1..];
      var mid := s[at + 2..|s| - 1];
      LacksIff(tail, '@');
      LacksIff(mid, '.');
      assert forall k | at < k < |s| :: s[k] == tail[k - at - 1];
      assert forall k | at + 2 <= k < |s| - 1 :: s[k] == mid[k - at - 2];
      if EmailTest(s) {
        var m :| 0 <= m < |mid| && mid[m] == '.';
        assert s[at + 2 + m] == '.';
      }
      if HasEmailShape(s) {
        var d :| at + 1 < d < |s| - 1 && s[d] == '.';
        assert mid[d - at - 2] == '.';
      }
    }
  }

  /** The scan and the pattern agree on every string. */
  lemma EmailTestMatchesRegex(s: string)
    ensures EmailTest(s) <==> MatchesEmailRegex(s)
  {
    EmailTestIff(s);
    EmailRegexIff(s);
  }

  /** Examples: a dot is needed after the '@', dots may repeat after it, and
      a doubled '@' is refused, as is a value whose every dot comes right
      after the '@' or is the last character. */
  lemma EmailAccepted()
    ensures MatchesEmailRegex("a@b.com")
  {
    var s := "a@b.com";
    SegmentOf(s, 0, 1);
    SegmentOf(s, 2, 3);
    SegmentOf(s, 4, 7);
    assert Segment(s[..1]) && s[1] == '@' && Segment(s[2..3]) && s[3] == '.' && Segment(s[4..]);
  }

  lemma EmailWithDottedDomainAccepted()
    ensures MatchesEmailRegex("a@b.c.d")
  {
    var s := "a@b.c.d";
    SegmentOf(s, 0, 1);
    SegmentOf(s, 2, 5);
    SegmentOf(s, 6, 7);
    assert Segment(s[..1]) && s[1] == '@' && Segment(s[2..5]) && s[5] == '.' && Segment(s[6..]);
  }

  /** The pattern does not ask for non-empty domain labels: a dot may follow
      another dot, the '@', or end the value, as long as one dot is neither
      right after the '@' nor last. */
  lemma EmailLooseDotsAccepted()
    ensures MatchesEmailRegex("a@b..c")
    ensures MatchesEmailRegex("a@.b.c")
    ensures MatchesEmailRegex("a@b.c.")
  {
    var x := "a@b..c";
    SegmentOf(x, 0, 1);
    SegmentOf(x, 2, 3);
    SegmentOf(x, 4, 6);
    assert Segment(x[..1]) && x[1] == '@' && Segment(x[2..3]) && x[3] == '.' && Segment(x[4..]);
    var y := "a@.b.c";
    SegmentOf(y, 0, 1);
    SegmentOf(y, 2, 4);
    SegmentOf(y, 5, 6);
    assert Segment(y[..1]) && y[1] == '@' && Segment(y[2..4]) && y[4] == '.' && Segment(y[5..]);
    var z := "a@b.c.";
    SegmentOf(z, 0, 1);
    SegmentOf(z, 2, 3);
    SegmentOf(z, 4, 6);
    assert Segment(z[..1]) && z[1] == '@' && Segment(z[2..3]) && z[3] == '.' && Segment(z[4..]);
  }

  lemma EmailWithoutDotRefused()
    ensures !MatchesEmailRegex("a@b")
  {
    EmailRegexIff("a@b");
  }

  lemma EmailDoubleAtRefused()
    ensures !MatchesEmailRegex("a@@b.com")
  {
    var w := "a@@b.com";
    assert w[1] == '@' && w[2] == '@';
    EmailRegexIff(w);
  }

  lemma EmailDotPlacementRefused()
    ensures !MatchesEmailRegex("a@.com")
    ensures !MatchesEmailRegex("a@b.")
  {
    var x := "a@.com";
    assert x[1] == '@' && x[3] != '.' && x[4] != '.';
    EmailRegexIff(x);
    EmailRegexIff("a@b.");
  }
}
