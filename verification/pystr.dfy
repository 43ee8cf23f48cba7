/**
 * The parts of Python's `str` that the generator relies on, restricted to ASCII:
 * `isspace`, `strip`, `split(sep)`, `split()`, `join`, `lower`, `rstrip(chars)`,
 * `startswith` and `str(int)`.
 */
module PyStr {

  /** The ASCII characters for which Python's `str.isspace` holds (also what `\s` matches in `re`). */
  predicate IsSpace(c: char) {
    c == ' ' || ('\t' <= c <= '\r') || ('\U{1C}' <= c <= '\U{1F}')
  }

  predicate IsComma(c: char) {
    c == ','
  }

  predicate NoComma(s: string) {
    forall i :: 0 <= i < |s| ==> !IsComma(s[i])
  }

  predicate NoSpace(s: string) {
    forall i :: 0 <= i < |s| ==> !IsSpace(s[i])
  }

  predicate AllSpace(s: string) {
    forall i :: 0 <= i < |s| ==> IsSpace(s[i])
  }

  /** No surrounding whitespace: what `strip` leaves. */
  predicate Stripped(s: string) {
    s == [] || (!IsSpace(s[0]) && !IsSpace(s[|s| - 1]))
  }

  // ---------------------------------------------------------------- strip

  /** `s.lstrip()` */
  function LStrip(s: string): (r: string)
    ensures |r| <= |s| && r == s[|s| - |r|..]
    ensures AllSpace(s[..|s| - |r|])
    ensures r == [] || !IsSpace(r[0])
  {
    if s != [] && IsSpace(s[0]) then LStrip(s[1..]) else s
  }

  /** `s.rstrip()` */
  function RStrip(s: string): (r: string)
    ensures |r| <= |s| && r == s[..|r|]
    ensures AllSpace(s[|r|..])
    ensures r == [] || !IsSpace(r[|r| - 1])
  {
    if s != [] && IsSpace(s[|s| - 1]) then RStrip(s[..|s| - 1]) else s
  }

  /** Where `strip` starts keeping characters. */
  function StripStart(s: string): (i: nat)
    ensures i <= |s| && AllSpace(s[..i])
  {
    |s| - |LStrip(s)|
  }

  /** `s.strip()`: `r` is what lies between whitespace-only margins of `s`. */
  function Strip(s: string): (r: string)
    ensures Stripped(r)
    ensures StripStart(s) + |r| <= |s| && s[StripStart(s)..StripStart(s) + |r|] == r
    ensures AllSpace(s[StripStart(s) + |r|..])
  {
    var l := LStrip(s);
    var r := RStrip(l);
    assert r != [] ==> r[0] == l[0];
    SuffixSlices(s, l, |r|);
    r
  }

  /** Slices of a suffix `l` of `s` are slices of `s`, shifted by where `l` starts. */
  lemma SuffixSlices(s: string, l: string, n: nat)
    requires |l| <= |s| && l == s[|s| - |l|..] && n <= |l|
    ensures s[|s| - |l|..|s| - |l| + n] == l[..n]
    ensures s[|s| - |l| + n..] == l[n..]
  {
  }

  lemma {:induction false} LStripPadded(pre: string, x: string)
    requires AllSpace(pre) && (x == [] || !IsSpace(x[0]))
    ensures LStrip(pre + x) == x
    decreases |pre|
  {
    if pre != [] {
      assert (pre + x)[1..] == pre[1..] + x;
      LStripPadded(pre[1..], x);
    } else {
      assert pre + x == x;
    }
  }

  lemma {:induction false} RStripPadded(x: string, post: string)
    requires AllSpace(post) && (x == [] || !IsSpace(x[|x| - 1]))
    ensures RStrip(x + post) == x
    decreases |post|
  {
    if post != [] {
      assert (x + post)[..|x + post| - 1] == x + post[..|post| - 1];
      RStripPadded(x, post[..|post| - 1]);
    } else {
      assert x + post == x;
    }
  }

  /** Whitespace around an already stripped string is exactly what `strip` removes. */
  lemma StripPadded(pre: string, x: string, post: string)
    requires AllSpace(pre) && AllSpace(post) && Stripped(x)
    ensures Strip(pre + x + post) == x
  {
    if x == [] {
      assert pre + x + post == pre + post;
      LStripPadded(pre + post, []);
      assert pre + post + [] == pre + post;
    } else {
      assert pre + x + post == pre + (x + post);
      LStripPadded(pre, x + post);
      RStripPadded(x, post);
    }
  }

  // ---------------------------------------------------------------- join

  /** `sep.join(parts)` */
  function Join(sep: string, parts: seq<string>): string
    decreases |parts|
  {
    if |parts| == 0 then ""
    else if |parts| == 1 then parts[0]
    else parts[0] + sep + Join(sep, parts[1..])
  }

  // ---------------------------------------------------------------- split

  /**
   * The pieces of `s` between the characters that satisfy `sep`, empty pieces
   * included: `s.split(",")` is `Pieces(s, IsComma)`.
   */
  function Pieces(s: string, sep: char -> bool): (r: seq<string>)
    ensures |r| >= 1
    decreases |s|
  {
    if s == [] then [""]
    else
      var rest := Pieces(s[1..], sep);
      if sep(s[0]) then [""] + rest else [[s[0]] + rest[0]] + rest[1..]
  }

  /** No piece holds a separator. */
  lemma {:induction false} PiecesHaveNoSep(s: string, sep: char -> bool)
    ensures forall k, i :: 0 <= k < |Pieces(s, sep)| && 0 <= i < |Pieces(s, sep)[k]| ==> !sep(Pieces(s, sep)[k][i])
    decreases |s|
  {
    if s != [] {
      PiecesHaveNoSep(s[1..], sep);
    }
  }

  /** A string without separators is one piece. */
  lemma {:induction false} PiecesOfUnseparated(s: string, sep: char -> bool)
    requires forall i :: 0 <= i < |s| ==> !sep(s[i])
    ensures Pieces(s, sep) == [s]
    decreases |s|
  {
    if s != [] {
      PiecesOfUnseparated(s[1..], sep);
      assert [s[0]] + s[1..] == s;
    }
  }

  /** Splitting at a separator character splits the pieces. */
  lemma {:induction false} PiecesAtSep(x: string, c: char, y: string, sep: char -> bool)
    requires sep(c)
    ensures Pieces(x + [c] + y, sep) == Pieces(x, sep) + Pieces(y, sep)
    decreases |x|
  {
    if x == [] {
      assert x + [c] + y == [c] + y;
      assert ([c] + y)[1..] == y;
    } else {
      assert (x + [c] + y)[1..] == x[1..] + [c] + y;
      PiecesAtSep(x[1..], c, y, sep);
    }
  }

  /** `",".join(s.split(","))` gives back `s`. */
  lemma {:induction false} JoinPiecesComma(s: string)
    ensures Join(",", Pieces(s, IsComma)) == s
    decreases |s|
  {
    if s != [] {
      var rest := Pieces(s[1..], IsComma);
      JoinPiecesComma(s[1..]);
      if IsComma(s[0]) {
        assert Pieces(s, IsComma) == [""] + rest;
        assert ([""] + rest)[1..] == rest;
      } else {
        var ps := Pieces(s, IsComma);
        assert ps == [[s[0]] + rest[0]] + rest[1..];
        if |rest| == 1 {
          assert s == [s[0]] + s[1..];
        } else {
          assert ps[1..] == rest[1..];
          assert Join(",", rest) == rest[0] + "," + Join(",", rest[1..]);
          assert s == [s[0]] + s[1..];
        }
      }
    }
  }

  /** `",".join(ps).split(",")` gives back `ps` when no piece holds a comma. */
  lemma {:induction false} PiecesJoinComma(ps: seq<string>)
    requires |ps| >= 1
    requires forall k :: 0 <= k < |ps| ==> NoComma(ps[k])
    ensures Pieces(Join(",", ps), IsComma) == ps
    decreases |ps|
  {
    PiecesOfUnseparated(ps[0], IsComma);
    if |ps| > 1 {
      PiecesJoinComma(ps[1..]);
      assert ps[0] + "," + Join(",", ps[1..]) == ps[0] + [','] + Join(",", ps[1..]);
      PiecesAtSep(ps[0], ',', Join(",", ps[1..]), IsComma);
      assert [ps[0]] + ps[1..] == ps;
    }
  }

  /** The pieces of `", ".join(names)` are the names, each after the first led by a space. */
  lemma {:induction false} PiecesOfCommaSpaceJoin(names: seq<string>)
    requires |names| >= 1
    requires forall k :: 0 <= k < |names| ==> NoComma(names[k])
    ensures |Pieces(Join(", ", names), IsComma)| == |names|
    ensures Pieces(Join(", ", names), IsComma)[0] == names[0]
    ensures forall k :: 1 <= k < |names| ==> Pieces(Join(", ", names), IsComma)[k] == " " + names[k]
    decreases |names|
  {
    PiecesOfUnseparated(names[0], IsComma);
    if |names| > 1 {
      var tail := Join(", ", names[1..]);
      PiecesOfCommaSpaceJoin(names[1..]);
      assert Join(", ", names) == names[0] + [','] + (" " + tail);
      PiecesAtSep(names[0], ',', " " + tail, IsComma);
      assert (" " + tail)[1..] == tail;
      var p := Pieces(tail, IsComma);
      assert Pieces(" " + tail, IsComma) == [" " + p[0]] + p[1..];
    }
  }

  /** The non-empty strings of `ps`, in order. */
  function NonEmpty(ps: seq<string>): (r: seq<string>)
    ensures forall k :: 0 <= k < |r| ==> r[k] != [] && r[k] in ps
    decreases |ps|
  {
    if ps == [] then []
    else if ps[0] == [] then NonEmpty(ps[1..])
    else [ps[0]] + NonEmpty(ps[1..])
  }

  lemma {:induction false} NonEmptyAppend(a: seq<string>, b: seq<string>)
    ensures NonEmpty(a + b) == NonEmpty(a) + NonEmpty(b)
    decreases |a|
  {
    if a != [] {
      assert (a + b)[0] == a[0];
      assert (a + b)[1..] == a[1..] + b;
      NonEmptyAppend(a[1..], b);
      if a[0] != [] {
        assert NonEmpty(a + b) == [a[0]] + NonEmpty(a[1..] + b);
      }
    } else {
      assert a + b == b;
    }
  }

  /** `s.split()`: the maximal runs of non-whitespace characters, in order. */
  function Words(s: string): (r: seq<string>)
    ensures forall k :: 0 <= k < |r| ==> r[k] != [] && NoSpace(r[k])
  {
    PiecesHaveNoSep(s, IsSpace);
    NonEmpty(Pieces(s, IsSpace))
  }

  /** Whitespace separates words. */
  lemma WordsAtSpace(x: string, c: char, y: string)
    requires IsSpace(c)
    ensures Words(x + [c] + y) == Words(x) + Words(y)
  {
    PiecesAtSep(x, c, y, IsSpace);
    NonEmptyAppend(Pieces(x, IsSpace), Pieces(y, IsSpace));
  }

  /** A non-empty string without whitespace is a single word. */
  lemma WordsOfWord(w: string)
    requires w != [] && NoSpace(w)
    ensures Words(w) == [w]
  {
    PiecesOfUnseparated(w, IsSpace);
    assert NonEmpty([w]) == [w] + NonEmpty([]);
  }

  /** A string of whitespace only has no words. */
  lemma {:induction false} WordsOfSpace(t: string)
    requires AllSpace(t)
    ensures Words(t) == []
    decreases |t|
  {
    if t != [] {
      assert t == [] + [t[0]] + t[1..];
      WordsAtSpace([], t[0], t[1..]);
      WordsOfSpace(t[1..]);
    } else {
      assert Pieces(t, IsSpace) == [""];
      assert NonEmpty([""]) == NonEmpty([""][1..]);
    }
  }

  /** Trailing whitespace adds no word. */
  lemma WordsOfTrailingSpace(w: string, t: string)
    requires w != [] && NoSpace(w) && AllSpace(t)
    ensures Words(w + t) == [w]
  {
    WordsOfWord(w);
    if t == [] {
      assert w + t == w;
    } else {
      assert w + t == w + [t[0]] + t[1..];
      WordsAtSpace(w, t[0], t[1..]);
      WordsOfSpace(t[1..]);
    }
  }

  // ---------------------------------------------------------------- lower, rstrip, startswith

  predicate IsUpper(c: char) {
    'A' <= c <= 'Z'
  }

  /** `s.lower()` on ASCII letters; every other character is kept. */
  function Lower(s: string): (r: string)
    ensures |r| == |s|
    ensures forall i :: 0 <= i < |s| ==> !IsUpper(r[i])
    ensures forall i :: 0 <= i < |s| && !IsUpper(s[i]) ==> r[i] == s[i]
    ensures forall i :: 0 <= i < |s| && IsUpper(s[i]) ==> r[i] as int == s[i] as int + 32
  {
    seq(|s|, i requires 0 <= i < |s| => if IsUpper(s[i]) then (s[i] as int + 32) as char else s[i])
  }

  /** `s.rstrip(chars)`: drops every trailing character that occurs in `chars`. */
  function RStripChars(s: string, chars: string): (r: string)
    ensures r <= s
    ensures forall i :: |r| <= i < |s| ==> s[i] in chars
    ensures r == [] || r[|r| - 1] !in chars
    decreases |s|
  {
    if s != [] && s[|s| - 1] in chars then RStripChars(s[..|s| - 1], chars) else s
  }

  /** `rstrip` never reaches past a character it does not strip. */
  lemma {:induction false} RStripCharsKeepsPrefix(x: string, y: string, chars: string)
    requires x != [] && x[|x| - 1] !in chars
    ensures RStripChars(x + y, chars) == x + RStripChars(y, chars)
    decreases |y|
  {
    if y == [] {
      assert x + y == x;
    } else if y[|y| - 1] in chars {
      assert (x + y)[..|x + y| - 1] == x + y[..|y| - 1];
      RStripCharsKeepsPrefix(x, y[..|y| - 1], chars);
    }
  }

  /** `s.startswith(prefix)` */
  predicate StartsWith(s: string, prefix: string) {
    prefix <= s
  }

  // ---------------------------------------------------------------- str(int)

  function DigitChar(d: nat): char
    requires d < 10
  {
    ('0' as int + d) as char
  }

  predicate IsDigit(c: char) {
    '0' <= c <= '9'
  }

  /** The value of a string of decimal digits. */
  function DigitsValue(s: string): nat
    requires forall i :: 0 <= i < |s| ==> IsDigit(s[i])
    decreases |s|
  {
    if s == [] then 0
    else
      var d := s[|s| - 1];
      assert IsDigit(d);
      10 * DigitsValue(s[..|s| - 1]) + (d as int - '0' as int)
  }

  /** `str(n)` for `n >= 0`: decimal digits, no leading zero. */
  function NatDigits(n: nat): (r: string)
    ensures r != [] && (forall i :: 0 <= i < |r| ==> IsDigit(r[i]))
    ensures r[0] == '0' ==> n == 0
    ensures DigitsValue(r) == n
    decreases n
  {
    if n < 10 then [DigitChar(n)]
    else
      var r := NatDigits(n / 10) + [DigitChar(n % 10)];
      assert r[..|r| - 1] == NatDigits(n / 10);
      r
  }

  /** Appending a digit to a positive number appends its character. */
  lemma NatDigitsStep(n: nat, d: nat)
    requires 1 <= n && d < 10
    ensures NatDigits(10 * n + d) == NatDigits(n) + [DigitChar(d)]
  {
    assert (10 * n + d) / 10 == n && (10 * n + d) % 10 == d;
  }

  /** `str(n)` */
  function IntString(n: int): string
  {
    if n < 0 then "-" + NatDigits(-n) else NatDigits(n)
  }
}
