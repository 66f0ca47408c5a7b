/** The regular expressions of `src/validation/fields.js`, each written as the
    left-to-right scan a regex engine performs for it, and each proved equal
    to a plain statement of the strings it accepts. */
module Patterns {
  import opened JsString

  /** The character classes the patterns use. */
  datatype Class =
    | Lower      // `[a-z]`
    | Upper      // `[A-Z]`
    | Digit      // `[0-9]` and `\d`
    | NameClass  // `[a-zA-Z؀-ۿ\s]`
    | TokenClass // `[A-Za-z0-9-_]`: the `-` after a range is a literal hyphen

  predicate IsArabic(c: char) { 0x0600 <= c as int <= 0x06FF }

  predicate In(c: char, cls: Class) {
    match cls
    case Lower => IsAsciiLower(c)
    case Upper => IsAsciiUpper(c)
    case Digit => IsAsciiDigit(c)
    case NameClass => IsAsciiLower(c) || IsAsciiUpper(c) || IsArabic(c) || IsSpace(c)
    case TokenClass => IsAsciiLower(c) || IsAsciiUpper(c) || IsAsciiDigit(c) || c == '-' || c == '_'
  }

  predicate AllIn(s: string, cls: Class) {
    forall i :: 0 <= i < |s| ==> In(s[i], cls)
  }

  /** Where a greedy `[cls]*` that starts at `i` stops. */
  function RunEnd(s: string, i: nat, cls: Class): (j: nat)
    requires i <= |s|
    ensures i <= j <= |s|
    decreases |s| - i
  {
    if i < |s| && In(s[i], cls) then RunEnd(s, i + 1, cls) else i
  }

  /** The run covers only characters of the class and ends at the end of `s` or before one outside it. */
  lemma {:induction false} RunEndSpec(s: string, i: nat, cls: Class)
    requires i <= |s|
    ensures forall k :: i <= k < RunEnd(s, i, cls) ==> In(s[k], cls)
    ensures RunEnd(s, i, cls) < |s| ==> !In(s[RunEnd(s, i, cls)], cls)
    decreases |s| - i
  {
    if i < |s| && In(s[i], cls) {
      RunEndSpec(s, i + 1, cls);
    }
  }

  /** A run of the class from `i` to `j`, followed by the end or by a character outside it, is what the scan finds. */
  lemma {:induction false} RunEndAt(s: string, i: nat, j: nat, cls: Class)
    requires i <= j <= |s|
    requires forall k :: i <= k < j ==> In(s[k], cls)
    requires j == |s| || !In(s[j], cls)
    ensures RunEnd(s, i, cls) == j
    decreases j - i
  {
    if i < j {
      RunEndAt(s, i + 1, j, cls);
    }
  }

  /** `(?=.*[cls])` at position `i`: `.` does not cross a line terminator. */
  function Lookahead(s: string, i: nat, cls: Class): bool
    requires i <= |s|
    decreases |s| - i
  {
    if i == |s| then false
    else if In(s[i], cls) then true
    else if IsLineTerminator(s[i]) then false
    else Lookahead(s, i + 1, cls)
  }

  /** Some character of the class occurs before the first line terminator. */
  ghost predicate OnFirstLine(s: string, cls: Class) {
    exists k :: 0 <= k < |s| && In(s[k], cls) && forall m :: 0 <= m < k ==> !IsLineTerminator(s[m])
  }

  lemma {:induction false} LookaheadFinds(s: string, i: nat, cls: Class)
    requires i <= |s|
    ensures Lookahead(s, i, cls) <==>
      exists k :: i <= k < |s| && In(s[k], cls) && forall m :: i <= m < k ==> !IsLineTerminator(s[m])
    decreases |s| - i
  {
    if i < |s| && !In(s[i], cls) && !IsLineTerminator(s[i]) {
      LookaheadFinds(s, i + 1, cls);
      if k :| i + 1 <= k < |s| && In(s[k], cls) && forall m :: i + 1 <= m < k ==> !IsLineTerminator(s[m]) {
        assert forall m :: i <= m < k ==> !IsLineTerminator(s[m]);
      }
    }
  }

  /** `/^[0-9]{10,15}$/` */
  function PhoneMatch(s: string): bool {
    var j := RunEnd(s, 0, Digit);
    j == |s| && 10 <= j <= 15
  }

  /** `/^[a-zA-Z؀-ۿ\s]+$/` */
  function NameMatch(s: string): bool {
    var j := RunEnd(s, 0, NameClass);
    j == |s| && j >= 1
  }

  /** `/^(?=.*[a-z])(?=.*[A-Z])(?=.*\d)/` */
  function PasswordMatch(s: string): bool {
    Lookahead(s, 0, Lower) && Lookahead(s, 0, Upper) && Lookahead(s, 0, Digit)
  }

  /** `n` runs of `[A-Za-z0-9-_]+` separated by single dots, then the end:
      the scan `[A-Za-z0-9-_]+(\.[A-Za-z0-9-_]+){n-1}$` performs. */
  function SegmentsMatch(s: string, n: nat): bool
    requires n >= 1
    decreases n
  {
    var a := RunEnd(s, 0, TokenClass);
    a > 0 && (if n == 1 then a == |s| else a < |s| && s[a] == '.' && SegmentsMatch(s[a + 1..], n - 1))
  }

  /** `/^[A-Za-z0-9-_]+\.[A-Za-z0-9-_]+\.[A-Za-z0-9-_]+$/` */
  function TokenMatch(s: string): bool {
    SegmentsMatch(s, 3)
  }

  /** Ten to fifteen characters, every one an ASCII digit. */
  lemma PhoneMatchMeans(s: string)
    ensures PhoneMatch(s) <==> 10 <= |s| <= 15 && AllIn(s, Digit)
  {
    RunEndSpec(s, 0, Digit);
    if AllIn(s, Digit) {
      RunEndAt(s, 0, |s|, Digit);
    }
  }

  /** At least one character, each a Latin letter, an Arabic-block character or white space. */
  lemma NameMatchMeans(s: string)
    ensures NameMatch(s) <==> |s| >= 1 && AllIn(s, NameClass)
  {
    RunEndSpec(s, 0, NameClass);
    if AllIn(s, NameClass) {
      RunEndAt(s, 0, |s|, NameClass);
    }
  }

  /** A lowercase letter, an uppercase letter and a digit, each before the first line terminator. */
  lemma PasswordMatchMeans(s: string)
    ensures PasswordMatch(s) <==> OnFirstLine(s, Lower) && OnFirstLine(s, Upper) && OnFirstLine(s, Digit)
  {
    LookaheadFinds(s, 0, Lower);
    LookaheadFinds(s, 0, Upper);
    LookaheadFinds(s, 0, Digit);
  }

  /** A token segment: non-empty, of `[A-Za-z0-9-_]` only. */
  predicate Segment(p: string) {
    p != [] && AllIn(p, TokenClass)
  }

  /** `s` splits on dots into exactly `n` segments. */
  predicate SegmentsShape(s: string, n: nat) {
    var ps := Split(s, '.');
    |ps| == n && forall i :: 0 <= i < n ==> Segment(ps[i])
  }

  /** Exactly three segments, joined by dots. */
  predicate TokenShape(s: string) {
    SegmentsShape(s, 3)
  }

  lemma NoDotIn(p: string)
    requires AllIn(p, TokenClass)
    ensures '.' !in p
  {
    forall i | 0 <= i < |p| ensures p[i] != '.' {
      assert In(p[i], TokenClass);
    }
  }

  /** The first run is a segment, and ends at the first dot. */
  lemma FirstSegment(s: string)
    requires RunEnd(s, 0, TokenClass) > 0
    ensures Segment(s[..RunEnd(s, 0, TokenClass)]) && '.' !in s[..RunEnd(s, 0, TokenClass)]
  {
    var a := RunEnd(s, 0, TokenClass);
    RunEndSpec(s, 0, TokenClass);
    assert forall k :: 0 <= k < a ==> s[..a][k] == s[k];
    NoDotIn(s[..a]);
  }

  /** What the segment scan accepts splits into that many segments. */
  lemma {:induction false} SegmentsMatchShape(s: string, n: nat)
    requires n >= 1 && SegmentsMatch(s, n)
    ensures SegmentsShape(s, n)
    decreases n
  {
    var a := RunEnd(s, 0, TokenClass);
    FirstSegment(s);
    if n == 1 {
      assert s[..a] == s;
    } else {
      var rest := s[a + 1..];
      SegmentsMatchShape(rest, n - 1);
      assert s == s[..a] + ['.'] + rest;
      SegmentsCons(s[..a], rest, n);
    }
  }

  /** A segment, a dot and `n - 1` segments make `n` segments. */
  lemma SegmentsCons(p: string, rest: string, n: nat)
    requires n >= 2 && Segment(p) && '.' !in p && SegmentsShape(rest, n - 1)
    ensures SegmentsShape(p + ['.'] + rest, n)
  {
    SplitCons(p, '.', rest);
    var ps := Split(p + ['.'] + rest, '.');
    assert forall i :: 1 <= i < n ==> ps[i] == Split(rest, '.')[i - 1];
  }

  /** A first piece without a dot is what the scan's first run covers. */
  lemma FirstRun(s: string, i: nat)
    requires i <= |s| && AllIn(s[..i], TokenClass)
    requires i == |s| || s[i] == '.'
    ensures RunEnd(s, 0, TokenClass) == i
  {
    assert forall k :: 0 <= k < i ==> s[k] == s[..i][k];
    RunEndAt(s, 0, i, TokenClass);
  }

  /** That many segments joined by dots are what the segment scan accepts. */
  lemma {:induction false} SegmentsShapeMatch(s: string, n: nat)
    requires n >= 1 && SegmentsShape(s, n)
    ensures SegmentsMatch(s, n)
    decreases n
  {
    if '.' !in s {
      var ps := Split(s, '.');
      assert ps == [s] && Segment(ps[0]);
      assert s[..|s|] == s;
      FirstRun(s, |s|);
    } else {
      var i := IndexOf(s, '.');
      ShapeTail(s, n);
      FirstRun(s, i);
      SegmentsShapeMatch(s[i + 1..], n - 1);
    }
  }

  /** Past the first dot come the other `n - 1` segments. */
  lemma ShapeTail(s: string, n: nat)
    requires n >= 1 && SegmentsShape(s, n) && '.' in s
    ensures var i := IndexOf(s, '.');
      n >= 2 && Segment(s[..i]) && SegmentsShape(s[i + 1..], n - 1)
  {
    var i := IndexOf(s, '.');
    var ps := Split(s, '.');
    var qs := Split(s[i + 1..], '.');
    assert ps == [s[..i]] + qs;
    assert Segment(ps[0]);
    assert forall j :: 0 <= j < n - 1 ==> qs[j] == ps[j + 1];
  }

  /** The token pattern accepts exactly the strings of three dot-joined segments. */
  lemma TokenMatchMeans(s: string)
    ensures TokenMatch(s) <==> TokenShape(s)
  {
    if TokenMatch(s) {
      SegmentsMatchShape(s, 3);
    }
    if TokenShape(s) {
      SegmentsShapeMatch(s, 3);
    }
  }
}
