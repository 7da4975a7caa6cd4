/** The basic e-mail check the service applies on create and on both updates:
    the pattern `^[^\s@]+@[^\s@]+\.[^\s@]+$`.

    Three descriptions of one language are given and proved equal:
    - `MatchesPattern`: the pattern read as a split `local@host.tld`;
    - `WellShaped`: what an accepted address contains (no white space, exactly
      one '@', something before it, and a '.' after it that is neither the
      first nor the last character of the part after the '@');
    - `IsValidEmail`: a left-to-right scanner, the automaton the pattern
      compiles to, which is what the service evaluates. */
module Email {
  import opened JsText

  /** A character of the class `[^\s@]`. */
  predicate IsAddrChar(c: char)
  {
    !IsJsSpace(c) && c != '@'
  }

  predicate AllAddrChars(s: string)
  {
    forall k | 0 <= k < |s| :: IsAddrChar(s[k])
  }

  predicate NoSpace(s: string)
  {
    forall k | 0 <= k < |s| :: !IsJsSpace(s[k])
  }

  /** `s` has a '.' that is neither its first nor its last character. */
  predicate HasInnerDot(s: string)
  {
    exists k :: 0 < k < |s| - 1 && s[k] == '.'
  }

  // ---------------------------------------------------------------------------
  // The pattern, read as a split of the string

  /** The '@' at `i` and the '.' at `j` split `s` into three non-empty runs of
      `[^\s@]`: the way the pattern matches `s`. */
  ghost predicate PatternSplit(s: string, i: int, j: int)
  {
    && 0 < i && i + 1 < j && j + 1 < |s|
    && s[i] == '@' && s[j] == '.'
    && AllAddrChars(s[..i]) && AllAddrChars(s[i + 1..j]) && AllAddrChars(s[j + 1..])
  }

  ghost predicate MatchesPattern(s: string)
  {
    exists i, j :: PatternSplit(s, i, j)
  }

  // ---------------------------------------------------------------------------
  // The same language, described by what an accepted address contains

  /** `i` is the position of the one and only '@' in `s`. */
  ghost predicate SoleAt(s: string, i: int)
  {
    0 <= i < |s| && s[i] == '@' && forall k | 0 <= k < |s| && k != i :: s[k] != '@'
  }

  ghost predicate WellShaped(s: string)
  {
    NoSpace(s) && exists i :: SoleAt(s, i) && 0 < i && HasInnerDot(s[i + 1..])
  }

  // ---------------------------------------------------------------------------
  // The scanner

  /** The states of the automaton for the pattern: nothing read; a non-empty
      local part; the '@'; a host without a usable dot; a host ending in a dot
      that has something before it; a complete address; no match possible. */
  datatype ScanState = Start | Local | AtSign | Host | HostDot | Tld | Reject

  function Step(st: ScanState, c: char): ScanState
  {
    if !IsAddrChar(c) then
      (if c == '@' && st == Local then AtSign else Reject)
    else
      match st
      case Start => Local
      case Local => Local
      case AtSign => Host
      case Host => if c == '.' then HostDot else Host
      case HostDot => Tld
      case Tld => Tld
      case Reject => Reject
  }

  /** The state reached after reading all of `s`, one character at a time. */
  function Scan(s: string): ScanState
  {
    if s == [] then Start else Step(Scan(s[..|s| - 1]), s[|s| - 1])
  }

  /** `emailRegex.test(email)`. */
  predicate IsValidEmail(s: string)
  {
    Scan(s) == Tld
  }

  // ---------------------------------------------------------------------------
  // What each state means

  /** Position of the first '@' in `s`, or `|s|` when there is none. */
  function FirstAt(s: string): (f: nat)
    ensures f <= |s|
    ensures forall k | 0 <= k < f :: s[k] != '@'
    ensures f < |s| ==> s[f] == '@'
  {
    if s == [] then 0 else if s[0] == '@' then 0 else 1 + FirstAt(s[1..])
  }

  /** The state that corresponds to `d`, the text read after the '@'. */
  ghost function DomainState(d: string): ScanState
  {
    if d == [] then AtSign
    else if HasInnerDot(d) then Tld
    else if |d| >= 2 && d[|d| - 1] == '.' then HostDot
    else Host
  }

  /** The state the scanner should be in after reading the prefix `p`. */
  ghost function Expected(p: string): ScanState
  {
    var f := FirstAt(p);
    if !NoSpace(p) then Reject
    else if f == |p| then (if p == [] then Start else Local)
    else if f == 0 || '@' in p[f + 1..] then Reject
    else DomainState(p[f + 1..])
  }

  lemma InnerDotSnoc(d: string, c: char)
    ensures HasInnerDot(d + [c]) <==> HasInnerDot(d) || (|d| >= 2 && d[|d| - 1] == '.')
  {
    var e := d + [c];
    if HasInnerDot(e) && !HasInnerDot(d) {
      var k :| 0 < k < |e| - 1 && e[k] == '.';
      assert k == |d| - 1;
    }
    if |d| >= 2 && d[|d| - 1] == '.' {
      assert e[|d| - 1] == '.';
    }
    if HasInnerDot(d) {
      var k :| 0 < k < |d| - 1 && d[k] == '.';
      assert e[k] == '.';
    }
  }

  lemma FirstAtSnoc(p: string, c: char)
    ensures FirstAt(p + [c]) == if FirstAt(p) < |p| then FirstAt(p) else if c == '@' then |p| else |p| + 1
  {
    var e := p + [c];
    var f, g := FirstAt(p), FirstAt(e);
    if f < |p| {
      assert e[f] == '@';
      assert g == f;
    } else {
      assert forall k | 0 <= k < |p| :: e[k] != '@';
      if c == '@' { assert e[|p|] == '@'; }
    }
  }

  lemma NoSpaceSnoc(p: string, c: char)
    ensures NoSpace(p + [c]) <==> NoSpace(p) && !IsJsSpace(c)
  {
    var e := p + [c];
    if NoSpace(e) {
      assert forall k | 0 <= k < |p| :: p[k] == e[k];
      assert c == e[|p|];
    }
  }

  /** One character of the host part moves the scanner as `DomainState` says. */
  lemma DomainStep(d: string, c: char)
    requires IsAddrChar(c)
    ensures DomainState(d + [c]) == Step(DomainState(d), c)
  {
    InnerDotSnoc(d, c);
    if d == [] {
      assert !HasInnerDot([c]);
    }
  }

  /** Reading `c` after `q` takes the expected state of `q` to that of `q + [c]`. */
  lemma ExpectedSnoc(q: string, c: char)
    ensures Expected(q + [c]) == Step(Expected(q), c)
  {
    var p := q + [c];
    FirstAtSnoc(q, c);
    NoSpaceSnoc(q, c);
    var f := FirstAt(q);
    if NoSpace(q) && f == |q| && c == '@' && q != [] {
      assert p[f + 1..] == [];
    } else if NoSpace(q) && f < |q| {
      var d := q[f + 1..];
      assert p[f + 1..] == d + [c];
      assert '@' in d + [c] <==> '@' in d || c == '@';
      if IsAddrChar(c) {
        DomainStep(d, c);
      }
    }
  }

  /** Each step of the scanner keeps it in the state `Expected` names. */
  lemma {:induction false} ScanIsExpected(p: string)
    ensures Scan(p) == Expected(p)
  {
    if p != [] {
      var q, c := p[..|p| - 1], p[|p| - 1];
      assert p == q + [c];
      ScanIsExpected(q);
      ExpectedSnoc(q, c);
    }
  }

  // ---------------------------------------------------------------------------
  // The three descriptions agree

  /** The scanner accepts exactly the well-shaped addresses. */
  lemma ScannerMatchesShape(s: string)
    ensures IsValidEmail(s) <==> WellShaped(s)
  {
    ScanIsExpected(s);
    var f := FirstAt(s);
    if IsValidEmail(s) {
      assert NoSpace(s) && f < |s| && 0 < f && '@' !in s[f + 1..];
      assert DomainState(s[f + 1..]) == Tld;
      assert SoleAt(s, f) by {
        forall k | f < k < |s| ensures s[k] != '@' { assert s[k] == s[f + 1..][k - f - 1]; }
      }
    }
    if WellShaped(s) {
      var i :| SoleAt(s, i) && 0 < i && HasInnerDot(s[i + 1..]);
      assert f == i;
      var d := s[f + 1..];
      assert '@' !in d by {
        forall k | 0 <= k < |d| ensures d[k] != '@' { assert d[k] == s[f + 1 + k]; }
      }
    }
  }

  /** The pattern read as a split and the description by content agree. */
  lemma PatternMatchesShape(s: string)
    ensures MatchesPattern(s) <==> WellShaped(s)
  {
    if MatchesPattern(s) {
      var i, j :| PatternSplit(s, i, j);
      forall k | 0 <= k < |s| && k != i && k != j ensures IsAddrChar(s[k]) {
        if k < i { assert s[k] == s[..i][k]; }
        else if k < j { assert s[k] == s[i + 1..j][k - i - 1]; }
        else { assert s[k] == s[j + 1..][k - j - 1]; }
      }
      assert SoleAt(s, i);
      assert s[i + 1..][j - i - 1] == '.';
    }
    if WellShaped(s) {
      var i :| SoleAt(s, i) && 0 < i && HasInnerDot(s[i + 1..]);
      var d := s[i + 1..];
      var k :| 0 < k < |d| - 1 && d[k] == '.';
      var j := i + 1 + k;
      assert s[j] == '.';
      var a, b, t := s[..i], s[i + 1..j], s[j + 1..];
      assert AllAddrChars(a) by {
        forall m | 0 <= m < |a| ensures IsAddrChar(a[m]) { assert a[m] == s[m]; }
      }
      assert AllAddrChars(b) by {
        forall m | 0 <= m < |b| ensures IsAddrChar(b[m]) { assert b[m] == s[i + 1 + m]; }
      }
      assert AllAddrChars(t) by {
        forall m | 0 <= m < |t| ensures IsAddrChar(t[m]) { assert t[m] == s[j + 1 + m]; }
      }
      assert PatternSplit(s, i, j);
    }
  }

  /** The service's check accepts exactly the strings the pattern matches. */
  lemma ScannerMatchesPattern(s: string)
    ensures IsValidEmail(s) <==> MatchesPattern(s)
  {
    ScannerMatchesShape(s);
    PatternMatchesShape(s);
  }
}
