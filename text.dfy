/**
 * Character classes and the string operations the markdown converter borrows
 * from JavaScript: `split` on one character, `join`, and `trim`.
 *
 * Strings are sequences of Unicode scalar values. Every character class used
 * below lies inside the Basic Multilingual Plane, so matching them on scalar
 * values gives the same answers as JavaScript's matching on UTF-16 units.
 */
module Text {

  /** JavaScript's LineTerminator class: the characters a regular-expression `.` refuses. */
  predicate IsLineTerminator(c: char) {
    c == '\n' || c == '\r' || c == '\U{2028}' || c == '\U{2029}'
  }

  /**
   * JavaScript's `\s`, which is also the set `String.prototype.trim` removes:
   * WhiteSpace (tab, vertical tab, form feed, space, no-break space, byte-order
   * mark and the other space separators) together with LineTerminator.
   */
  predicate IsSpace(c: char) {
    || c == '\t' || c == '\U{000B}' || c == '\U{000C}' || c == ' '
    || c == '\U{00A0}' || c == '\U{FEFF}' || c == '\U{1680}'
    || ('\U{2000}' <= c <= '\U{200A}')
    || c == '\U{202F}' || c == '\U{205F}' || c == '\U{3000}'
    || IsLineTerminator(c)
  }

  /** JavaScript's `\d`. */
  predicate IsDigit(c: char) {
    '0' <= c <= '9'
  }

  /** JavaScript's `\w`. */
  predicate IsWordChar(c: char) {
    ('a' <= c <= 'z') || ('A' <= c <= 'Z') || IsDigit(c) || c == '_'
  }

  /** What the regular expression `.*` can match: no line terminator anywhere. */
  predicate NoLineTerminator(s: string) {
    forall i :: 0 <= i < |s| ==> !IsLineTerminator(s[i])
  }

  /** `x` is what remains of `s` after some prefix is cut away. */
  predicate IsSuffix(x: string, s: string) {
    |x| <= |s| && s[|s| - |x|..] == x
  }

  predicate AllSpace(s: string) {
    forall i :: 0 <= i < |s| ==> IsSpace(s[i])
  }

  predicate AllDigits(s: string) {
    forall i :: 0 <= i < |s| ==> IsDigit(s[i])
  }

  predicate AllWordChars(s: string) {
    forall i :: 0 <= i < |s| ==> IsWordChar(s[i])
  }

  predicate AllEqual(s: string, c: char) {
    forall i :: 0 <= i < |s| ==> s[i] == c
  }

  /** Number of occurrences of `c` in `s`. */
  function Count(s: string, c: char): nat {
    if s == [] then 0 else (if s[0] == c then 1 else 0) + Count(s[1..], c)
  }

  /** `Array.prototype.join`: the parts with `sep` between neighbours. */
  function Join(parts: seq<string>, sep: string): string {
    if |parts| == 0 then ""
    else if |parts| == 1 then parts[0]
    else parts[0] + sep + Join(parts[1..], sep)
  }

  /** The concatenation of all parts (a join with the empty separator). */
  function Concat(parts: seq<string>): (r: string)
    ensures r == Join(parts, "")
  {
    if |parts| == 0 then ""
    else if |parts| == 1 then parts[0]
    else parts[0] + Concat(parts[1..])
  }

  /**
   * `String.prototype.split` with a one-character separator: one piece more
   * than there are separators, no piece holds the separator, and joining the
   * pieces back with the separator gives the original string.
   */
  function Split(s: string, sep: char): (parts: seq<string>)
    ensures |parts| == Count(s, sep) + 1
    ensures forall i :: 0 <= i < |parts| ==> sep !in parts[i]
    ensures Join(parts, [sep]) == s
    decreases |s|
  {
    if s == [] then [""]
    else
      var rest := Split(s[1..], sep);
      if s[0] == sep then
        assert ([""] + rest)[1..] == rest;
        [""] + rest
      else
        var parts := [[s[0]] + rest[0]] + rest[1..];
        assert parts[1..] == rest[1..];
        assert |rest| > 1 ==> rest == [rest[0]] + rest[1..];
        parts
  }

  /** Joining with one more part at the front prepends that part and the separator. */
  lemma JoinCons(first: string, rest: seq<string>, sep: string)
    requires |rest| > 0
    ensures Join([first] + rest, sep) == first + sep + Join(rest, sep)
  {
    assert ([first] + rest)[1..] == rest;
  }

  /** Joining with one more part at the end appends the separator and that part. */
  lemma {:induction false} JoinSnoc(parts: seq<string>, last: string, sep: string)
    requires |parts| > 0
    ensures Join(parts + [last], sep) == Join(parts, sep) + sep + last
    decreases |parts|
  {
    if |parts| == 1 {
      assert (parts + [last])[1..] == [last];
    } else {
      calc {
        Join(parts + [last], sep);
        { assert (parts + [last])[1..] == parts[1..] + [last]; }
        parts[0] + sep + Join(parts[1..] + [last], sep);
        { JoinSnoc(parts[1..], last, sep); }
        parts[0] + sep + (Join(parts[1..], sep) + sep + last);
        Join(parts, sep) + sep + last;
      }
    }
  }

  /** A first part that starts with `c` puts `c` first in the join. */
  lemma JoinHeadChar(parts: seq<string>, sep: string)
    requires |parts| > 0 && |parts[0]| > 0
    ensures Join(parts, sep) == [parts[0][0]] + Join([parts[0][1..]] + parts[1..], sep)
  {
    var tail := [parts[0][1..]] + parts[1..];
    assert tail[1..] == parts[1..];
    assert parts[0] == [parts[0][0]] + parts[0][1..];
  }

  /** An empty first part, followed by more, puts the separator first in the join. */
  lemma JoinHeadEmpty(parts: seq<string>, sep: string)
    requires |parts| > 1 && parts[0] == []
    ensures Join(parts, sep) == sep + Join(parts[1..], sep)
  {
    assert parts[0] + sep == sep;
  }

  /** Splitting after a character other than the separator extends the first piece. */
  lemma SplitConsChar(c: char, t: string, sep: char)
    requires c != sep
    ensures Split([c] + t, sep) == [[c] + Split(t, sep)[0]] + Split(t, sep)[1..]
  {
    assert ([c] + t)[1..] == t;
  }

  /** Splitting after a separator adds an empty piece in front. */
  lemma SplitConsSep(t: string, sep: char)
    ensures Split([sep] + t, sep) == [""] + Split(t, sep)
  {
    assert ([sep] + t)[1..] == t;
  }

  /** The other half of the round trip: pieces free of the separator survive a join and a split. */
  lemma {:induction false} SplitJoin(parts: seq<string>, sep: char)
    requires |parts| > 0
    requires forall i :: 0 <= i < |parts| ==> sep !in parts[i]
    ensures Split(Join(parts, [sep]), sep) == parts
    decreases |parts|, |parts[0]|
  {
    if |parts[0]| > 0 {
      var c := parts[0][0];
      var tail := [parts[0][1..]] + parts[1..];
      assert forall i :: 0 <= i < |tail| ==> sep !in tail[i] by {
        assert tail[1..] == parts[1..];
      }
      JoinHeadChar(parts, [sep]);
      SplitJoin(tail, sep);
      SplitConsChar(c, Join(tail, [sep]), sep);
      assert [c] + tail[0] == parts[0];
      assert tail[1..] == parts[1..];
      assert parts == [parts[0]] + parts[1..];
    } else if |parts| > 1 {
      JoinHeadEmpty(parts, [sep]);
      SplitJoin(parts[1..], sep);
      SplitConsSep(Join(parts[1..], [sep]), sep);
      assert parts == [""] + parts[1..];
    }
  }

  /** Length of the longest prefix of `s` made of `\s` characters. */
  function LeadingSpaces(s: string): (n: nat)
    ensures n <= |s|
    ensures AllSpace(s[..n])
    ensures n < |s| ==> !IsSpace(s[n])
  {
    if s == [] || !IsSpace(s[0]) then 0
    else
      var n := 1 + LeadingSpaces(s[1..]);
      assert s[..n] == [s[0]] + s[1..][..n - 1];
      n
  }

  /** The whitespace prefix is determined by where the first non-space character stands. */
  lemma {:induction false} LeadingSpacesIs(s: string, n: nat)
    requires n <= |s| && AllSpace(s[..n]) && (n < |s| ==> !IsSpace(s[n]))
    ensures LeadingSpaces(s) == n
  {
    if n > 0 {
      assert s[..n][0] == s[0];
      assert s[1..][..n - 1] == s[..n][1..];
      LeadingSpacesIs(s[1..], n - 1);
    }
  }

  /** Length of the longest suffix of `s` made of `\s` characters. */
  function TrailingSpaces(s: string): (n: nat)
    ensures n <= |s|
    ensures AllSpace(s[|s| - n..])
    ensures n < |s| ==> !IsSpace(s[|s| - n - 1])
  {
    if s == [] || !IsSpace(s[|s| - 1]) then 0
    else
      var init := s[..|s| - 1];
      var n := 1 + TrailingSpaces(init);
      assert s[|s| - n..] == init[|init| - (n - 1)..] + [s[|s| - 1]];
      n
  }

  /**
   * `String.prototype.trim`: the stretch of `s` left after removing the
   * longest whitespace prefix and then the longest whitespace suffix. The
   * result starts and ends with a non-space character (or is empty), and
   * only whitespace was cut away on either side.
   */
  function Trim(s: string): (r: string)
    ensures r == [] || (!IsSpace(r[0]) && !IsSpace(r[|r| - 1]))
    ensures LeadingSpaces(s) + |r| <= |s|
    ensures r == s[LeadingSpaces(s)..LeadingSpaces(s) + |r|]
    ensures AllSpace(s[..LeadingSpaces(s)]) && AllSpace(s[LeadingSpaces(s) + |r|..])
  {
    var a := LeadingSpaces(s);
    var t := s[a..];
    var r := t[..|t| - TrailingSpaces(t)];
    assert s[a + |r|..] == t[|t| - TrailingSpaces(t)..];
    r
  }

  /** Trimming twice is trimming once. */
  lemma TrimIdempotent(s: string)
    ensures Trim(Trim(s)) == Trim(s)
  {
    var r := Trim(s);
    assert LeadingSpaces(r) == 0;
    assert TrailingSpaces(r) == 0;
  }
}
