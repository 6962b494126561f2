/** The few Python string operations the modelled code relies on:
    `str.isspace`, `str.lower`, `str.split()` (on whitespace runs),
    `str.split(sep)`, `sep.join(parts)`, `str.strip()`, `str.startswith`
    and `str.replace` of one character by another. */
module Text {

  /** Python's `str.isspace()` on one character: the separators that
      `str.split()` and `str.strip()` use when given no argument. */
  predicate IsSpace(c: char)
  {
    var n := c as int;
    n == 0x20 || 0x09 <= n <= 0x0D || 0x1C <= n <= 0x1F || n == 0x85 || n == 0xA0
    || n == 0x1680 || 0x2000 <= n <= 0x200A || n == 0x2028 || n == 0x2029
    || n == 0x202F || n == 0x205F || n == 0x3000
  }

  /** `str.lower()` on one character, for the ASCII letters. */
  function LowerChar(c: char): (d: char)
    ensures IsSpace(d) <==> IsSpace(c)
    ensures !('A' <= d <= 'Z')
  {
    if 'A' <= c <= 'Z' then (c as int + 32) as char else c
  }

  /** `str.lower()`: every ASCII capital replaced by its small letter. */
  function Lower(s: string): (r: string)
    ensures |r| == |s|
    ensures forall i :: 0 <= i < |s| ==> r[i] == LowerChar(s[i])
  {
    seq(|s|, i requires 0 <= i < |s| => LowerChar(s[i]))
  }

  /** A piece that `str.split()` can produce: non-empty, no whitespace. */
  predicate IsWord(w: string)
  {
    |w| > 0 && forall i :: 0 <= i < |w| ==> !IsSpace(w[i])
  }

  /** The length of the longest whitespace-free prefix of `s`. */
  function WordLength(s: string): (n: nat)
    ensures n <= |s|
    ensures forall i :: 0 <= i < n ==> !IsSpace(s[i])
    ensures n == |s| || IsSpace(s[n])
  {
    if s == [] || IsSpace(s[0]) then 0 else 1 + WordLength(s[1..])
  }

  /** `s.split()`: the maximal runs of non-whitespace characters of `s`,
      left to right; leading, trailing and repeated whitespace yield no
      empty pieces. */
  function Words(s: string): (ws: seq<string>)
    ensures forall k :: 0 <= k < |ws| ==> IsWord(ws[k])
    decreases |s|
  {
    if s == [] then []
    else if IsSpace(s[0]) then Words(s[1..])
    else
      var n := WordLength(s);
      [s[..n]] + Words(s[n..])
  }

  /** `sep.join(parts)`. */
  function Join(parts: seq<string>, sep: string): string
  {
    if |parts| == 0 then ""
    else if |parts| == 1 then parts[0]
    else parts[0] + sep + Join(parts[1..], sep)
  }

  lemma {:induction false} WordLengthOfWord(w: string, rest: string)
    requires IsWord(w)
    requires rest == [] || IsSpace(rest[0])
    ensures WordLength(w + rest) == |w|
  {
    if |w| > 1 {
      assert (w + rest)[1..] == w[1..] + rest;
      WordLengthOfWord(w[1..], rest);
    }
  }

  /** Joining words with single spaces and splitting again gives the
      words back: `" ".join(ws).split() == ws`. */
  lemma {:induction false} WordsOfJoin(ws: seq<string>)
    requires forall k :: 0 <= k < |ws| ==> IsWord(ws[k])
    ensures Words(Join(ws, " ")) == ws
  {
    if |ws| == 1 {
      var w := ws[0];
      WordLengthOfWord(w, "");
      assert w + "" == w;
      assert w[..|w|] == w && w[|w|..] == [];
    } else if |ws| > 1 {
      var w := ws[0];
      var tail := Join(ws[1..], " ");
      var s := w + " " + tail;
      assert s == w + (" " + tail);
      WordLengthOfWord(w, " " + tail);
      assert s[..|w|] == w;
      assert s[|w|..] == " " + tail;
      assert (" " + tail)[1..] == tail;
      WordsOfJoin(ws[1..]);
      assert ws == [w] + ws[1..];
    }
  }

  /** `s.split(sep)`: the pieces of `s` between occurrences of `sep`;
      there is always one more piece than there are separators. */
  function SplitOn(s: string, sep: char): (parts: seq<string>)
    ensures |parts| >= 1
    ensures forall k :: 0 <= k < |parts| ==> sep !in parts[k]
  {
    if s == [] then [""]
    else
      var rest := SplitOn(s[1..], sep);
      if s[0] == sep then [""] + rest
      else [[s[0]] + rest[0]] + rest[1..]
  }

  /** Splitting at `sep` and joining with `sep` gives the text back. */
  lemma {:induction false} JoinSplitOn(s: string, sep: char)
    ensures Join(SplitOn(s, sep), [sep]) == s
  {
    if s != [] {
      var rest := SplitOn(s[1..], sep);
      JoinSplitOn(s[1..], sep);
      if s[0] != sep && |rest| > 1 {
        assert rest == [rest[0]] + rest[1..];
        assert Join(rest, [sep]) == rest[0] + [sep] + Join(rest[1..], [sep]);
      }
    }
  }

  /** A text without `sep` splits into itself alone, and only such a text does. */
  lemma {:induction false} SplitOnSingle(s: string, sep: char)
    ensures |SplitOn(s, sep)| == 1 <==> sep !in s
    ensures sep !in s ==> SplitOn(s, sep) == [s]
  {
    if s != [] {
      SplitOnSingle(s[1..], sep);
      assert s == [s[0]] + s[1..];
    }
  }

  /** Splitting `a + sep + b` splits `a` and `b` separately. */
  lemma {:induction false} SplitOnAppend(a: string, b: string, sep: char)
    ensures SplitOn(a + [sep] + b, sep) == SplitOn(a, sep) + SplitOn(b, sep)
  {
    if a == [] {
      assert a + [sep] + b == [sep] + b;
      assert ([sep] + b)[1..] == b;
    } else {
      assert (a + [sep] + b)[1..] == a[1..] + [sep] + b;
      SplitOnAppend(a[1..], b, sep);
    }
  }

  /** Joining one more part appends a separator and that part. */
  lemma {:induction false} JoinSnoc(parts: seq<string>, x: string, sep: string)
    requires |parts| >= 1
    ensures Join(parts + [x], sep) == Join(parts, sep) + sep + x
  {
    if |parts| > 1 {
      assert (parts + [x])[1..] == parts[1..] + [x];
      JoinSnoc(parts[1..], x, sep);
    }
  }

  /** `s.lstrip()` on whitespace. */
  function TrimStart(s: string): (r: string)
    ensures |r| <= |s| && r == s[|s| - |r|..]
    ensures forall i :: 0 <= i < |s| - |r| ==> IsSpace(s[i])
    ensures r == [] || !IsSpace(r[0])
  {
    if s != [] && IsSpace(s[0]) then TrimStart(s[1..]) else s
  }

  /** `s.rstrip()` on whitespace. */
  function TrimEnd(s: string): (r: string)
    ensures |r| <= |s| && r == s[..|r|]
    ensures forall i :: |r| <= i < |s| ==> IsSpace(s[i])
    ensures r == [] || !IsSpace(r[|r| - 1])
  {
    if s != [] && IsSpace(s[|s| - 1]) then TrimEnd(s[..|s| - 1]) else s
  }

  /** `s.lstrip().rstrip()`, which is `s.strip()`. */
  function Strip(s: string): string
  {
    TrimEnd(TrimStart(s))
  }

  lemma {:induction false} TrimStartSpaces(pre: string, s: string)
    requires forall i :: 0 <= i < |pre| ==> IsSpace(pre[i])
    requires s == [] || !IsSpace(s[0])
    ensures TrimStart(pre + s) == s
  {
    if pre == [] {
      assert pre + s == s;
    } else {
      assert (pre + s)[1..] == pre[1..] + s;
      TrimStartSpaces(pre[1..], s);
    }
  }

  lemma {:induction false} TrimEndSpaces(s: string, post: string)
    requires forall i :: 0 <= i < |post| ==> IsSpace(post[i])
    requires s == [] || !IsSpace(s[|s| - 1])
    ensures TrimEnd(s + post) == s
  {
    if post == [] {
      assert s + post == s;
    } else {
      var n := |s + post| - 1;
      assert (s + post)[..n] == s + post[..|post| - 1];
      TrimEndSpaces(s, post[..|post| - 1]);
    }
  }

  /** Stripping removes exactly the whitespace around a text that neither
      starts nor ends with whitespace. */
  lemma StripPadded(pre: string, s: string, post: string)
    requires forall i :: 0 <= i < |pre| ==> IsSpace(pre[i])
    requires forall i :: 0 <= i < |post| ==> IsSpace(post[i])
    requires s == [] || (!IsSpace(s[0]) && !IsSpace(s[|s| - 1]))
    ensures Strip(pre + s + post) == s
  {
    if s == [] {
      assert pre + s + post == pre + post;
      TrimStartSpaces(pre + post, []);
      assert pre + post + [] == pre + post;
    } else {
      assert pre + s + post == pre + (s + post);
      TrimStartSpaces(pre, s + post);
      TrimEndSpaces(s, post);
    }
  }

  /** `s.startswith(prefix)`. */
  predicate StartsWith(s: string, prefix: string)
  {
    |prefix| <= |s| && s[..|prefix|] == prefix
  }

  /** `s.replace(a, b)` for single characters `a` and `b`. */
  function ReplaceChar(s: string, a: char, b: char): (r: string)
    ensures |r| == |s|
    ensures forall i :: 0 <= i < |s| && s[i] == a ==> r[i] == b
    ensures a != b ==> a !in r
    ensures forall i :: 0 <= i < |s| && s[i] != a ==> r[i] == s[i]
  {
    seq(|s|, i requires 0 <= i < |s| => if s[i] == a then b else s[i])
  }
}
