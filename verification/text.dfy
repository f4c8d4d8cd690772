/** Octet and text sequences.

    Both octet strings (`bytes` in Python, `[]byte` in Go) and text are modelled as
    `string`: an octet is the character with the same code.  This module holds the
    searching, trimming and splitting primitives the grammar and the scanner use,
    written the way Python's `bytes.find`, `str.strip`, `str.split(sep, 1)` and
    `str.replace` behave. */
module Text {
  import opened Wrappers

  const CR: char := '\r'
  const LF: char := '\n'
  const CRLF: string := "\r\n"

  /** `p` occurs in `s` starting at index `i`. */
  predicate MatchAt(s: string, p: string, i: nat) {
    i + |p| <= |s| && s[i..i + |p|] == p
  }

  predicate StartsWith(s: string, p: string) {
    |p| <= |s| && s[..|p|] == p
  }

  /** `p` is a suffix of `s`.  Stated one character at a time, so that the
      solver only unfolds it where a proof asks. */
  predicate EndsWith(s: string, p: string)
    decreases |s|
  {
    if |s| <= |p| then s == p else EndsWith(s[1..], p)
  }

  lemma {:induction false} EndsWithIff(s: string, p: string)
    ensures EndsWith(s, p) <==> |p| <= |s| && s[|s| - |p|..] == p
    decreases |s|
  {
    if |s| > |p| {
      EndsWithIff(s[1..], p);
      assert s[1..][|s[1..]| - |p|..] == s[|s| - |p|..];
    }
  }

  /** Every drop of `s` is a suffix of `s`. */
  lemma {:induction false} EndsWithSuffix(s: string, k: nat)
    requires k <= |s|
    ensures EndsWith(s, s[k..])
  {
    EndsWithIff(s, s[k..]);
  }

  /** A suffix of a suffix of `s` is a suffix of `s`. */
  lemma {:induction false} EndsWithDrop(s: string, k: nat, t: string)
    requires k <= |s| && EndsWith(s[k..], t)
    ensures EndsWith(s, t)
  {
    EndsWithIff(s[k..], t);
    EndsWithIff(s, t);
    assert s[|s| - |t|..] == s[k..][|s[k..]| - |t|..];
  }

  /** Index of the first occurrence of `p` in `s` (Python's `find`, with `None` for -1). */
  function Find(s: string, p: string): (r: Option<nat>)
    ensures r.Some? ==> MatchAt(s, p, r.value)
    ensures r.Some? ==> forall j :: 0 <= j < r.value ==> !MatchAt(s, p, j)
    ensures r.None? ==> forall j: nat :: !MatchAt(s, p, j)
    decreases |s|
  {
    if StartsWith(s, p) then Some(0)
    else if |s| == 0 then None
    else
      var r' := Find(s[1..], p);
      assert !MatchAt(s, p, 0) by { if |p| <= |s| { assert s[0..|p|] == s[..|p|]; } }
      assert forall j: nat :: 0 < j ==> (MatchAt(s, p, j) <==> MatchAt(s[1..], p, j - 1)) by {
        forall j: nat | 0 < j ensures MatchAt(s, p, j) <==> MatchAt(s[1..], p, j - 1) {
          MatchAtShift(s, p, j - 1);
        }
      }
      match r'
      case Some(i) => Some(i + 1)
      case None => None
  }

  /** Dropping the first character shifts every occurrence left by one. */
  lemma {:induction false} MatchAtShift(s: string, p: string, j: nat)
    requires |s| > 0
    ensures MatchAt(s, p, j + 1) <==> MatchAt(s[1..], p, j)
  {
    if j + 1 + |p| <= |s| {
      var a := s[j + 1..j + 1 + |p|];
      var b := s[1..][j..j + |p|];
      assert |a| == |b|;
      assert forall k :: 0 <= k < |a| ==> a[k] == b[k];
      assert a == b;
    }
  }

  /** `p` occurs somewhere in `s` (Python's `p in s`). */
  predicate Contains(s: string, p: string) {
    Find(s, p).Some?
  }

  lemma {:induction false} ContainsIff(s: string, p: string)
    ensures Contains(s, p) <==> exists i: nat :: MatchAt(s, p, i)
  {
    if Contains(s, p) {
      assert MatchAt(s, p, Find(s, p).value);
    }
  }

  /** An occurrence inside a prefix of `s` is an occurrence inside `s`. */
  lemma {:induction false} MatchAtPrefix(s: string, t: string, p: string, i: nat)
    requires MatchAt(s, p, i)
    ensures MatchAt(s + t, p, i)
  {
    assert (s + t)[i..i + |p|] == s[i..i + |p|];
  }

  /** An occurrence inside the suffix `t` of `s + t`, shifted. */
  lemma {:induction false} MatchAtSuffix(s: string, t: string, p: string, i: nat)
    ensures MatchAt(s + t, p, |s| + i) <==> MatchAt(t, p, i)
  {
    if |s| + i + |p| <= |s + t| {
      assert (s + t)[|s| + i..|s| + i + |p|] == t[i..i + |p|];
    }
  }

  /** An occurrence of `p + q` is an occurrence of `p`. */
  lemma {:induction false} MatchAtLonger(s: string, p: string, q: string, i: nat)
    requires MatchAt(s, p + q, i)
    ensures MatchAt(s, p, i)
  {
    assert s[i..i + |p|] == s[i..i + |p + q|][..|p|];
  }

  /** An occurrence that ends inside the prefix `s` of `s + t` is one in `s`. */
  lemma {:induction false} MatchAtShorter(s: string, t: string, p: string, i: nat)
    requires MatchAt(s + t, p, i) && i + |p| <= |s|
    ensures MatchAt(s, p, i)
  {
    assert (s + t)[i..i + |p|] == s[i..i + |p|];
  }

  /** When no occurrence starts inside `a`, the first occurrence in `a + b` is the
      first occurrence in `b`, shifted past `a`. */
  lemma {:induction false} FindAfterPrefix(a: string, b: string, p: string)
    requires forall j :: 0 <= j < |a| ==> !MatchAt(a + b, p, j)
    ensures Find(a + b, p).Some? <==> Find(b, p).Some?
    ensures Find(b, p).Some? ==> Find(a + b, p).value == |a| + Find(b, p).value
  {
    var r := Find(a + b, p);
    var q := Find(b, p);
    if q.Some? {
      MatchAtSuffix(a, b, p, q.value);
    }
    if r.Some? {
      var k: nat := r.value - |a|;
      MatchAtSuffix(a, b, p, k);
    }
  }


  function IndexOf(s: string, c: char): (r: Option<nat>)
    ensures r.Some? ==> r.value < |s| && s[r.value] == c && c !in s[..r.value]
    ensures r.None? <==> c !in s
  {
    if |s| == 0 then None
    else if s[0] == c then Some(0)
    else
      match IndexOf(s[1..], c)
      case Some(i) => assert s[..i + 1] == [s[0]] + s[1..][..i]; Some(i + 1)
      case None => assert s == [s[0]] + s[1..]; None
  }

  /** Text split at the first `c`: the text before it and the text after it
      (Python's `s.split(c, 1)` when `c in s`). */
  function SplitFirst(s: string, c: char): (r: Option<(string, string)>)
    ensures r.Some? ==> s == r.value.0 + [c] + r.value.1 && c !in r.value.0
    ensures r.None? <==> c !in s
  {
    match IndexOf(s, c)
    case Some(i) =>
      assert s == s[..i] + [c] + s[i + 1..];
      Some((s[..i], s[i + 1..]))
    case None => None
  }

  /** Splitting at the first `c` finds the `c` that follows a `c`-free prefix. */
  lemma {:induction false} SplitFirstAt(a: string, c: char, b: string)
    requires c !in a
    ensures SplitFirst(a + [c] + b, c) == Some((a, b))
  {
    var s := a + [c] + b;
    assert s[|a|] == c;
    assert s[..|a|] == a && s[|a| + 1..] == b;
  }

  /** ASCII case folding, as `str.lower` / `strings.ToLower` act on ASCII text. */
  function LowerChar(c: char): char {
    if 'A' <= c <= 'Z' then (c as int + 32) as char else c
  }

  function Lower(s: string): (r: string)
    ensures |r| == |s|
    ensures forall i :: 0 <= i < |s| ==> r[i] == LowerChar(s[i])
  {
    seq(|s|, i requires 0 <= i < |s| => LowerChar(s[i]))
  }

  lemma {:induction false} LowerAppend(a: string, b: string)
    ensures Lower(a + b) == Lower(a) + Lower(b)
  {
    assert forall i :: 0 <= i < |a + b| ==> Lower(a + b)[i] == (Lower(a) + Lower(b))[i];
  }

  /** Lower-casing twice is lower-casing once. */
  lemma {:induction false} LowerIdempotent(s: string)
    ensures Lower(Lower(s)) == Lower(s)
  {
  }

  /** The characters Python's `str.isspace` (and so `str.strip()` and the
      regular-expression class `\s`) treats as white space. */
  predicate IsSpace(c: char) {
    var n := c as int;
    || c == ' ' || ('\t' <= c <= '\r') || (0x1c <= n <= 0x1f)
    || n == 0x85 || n == 0xa0 || n == 0x1680 || (0x2000 <= n <= 0x200a)
    || n == 0x2028 || n == 0x2029 || n == 0x202f || n == 0x205f || n == 0x3000
  }

  predicate AllSpace(s: string) {
    forall k :: 0 <= k < |s| ==> IsSpace(s[k])
  }

  /** `s` without its leading white space. */
  function TrimStart(s: string): (r: string)
    ensures |r| <= |s| && r == s[|s| - |r|..]
    ensures AllSpace(s[..|s| - |r|])
    ensures |r| > 0 ==> !IsSpace(r[0])
  {
    if |s| > 0 && IsSpace(s[0]) then
      var t := s[1..];
      var r := TrimStart(t);
      assert r == s[|s| - |r|..] by {
        assert t[|t| - |r|..] == s[|s| - |r|..];
      }
      assert AllSpace(s[..|s| - |r|]) by {
        var a := s[..|s| - |r|];
        forall k | 0 <= k < |a| ensures IsSpace(a[k]) {
          if k > 0 {
            assert a[k] == t[..|t| - |r|][k - 1];
          }
        }
      }
      r
    else s
  }

  /** `s` without its trailing white space. */
  function TrimEnd(s: string): (r: string)
    ensures |r| <= |s| && r == s[..|r|]
    ensures AllSpace(s[|r|..])
    ensures |r| > 0 ==> !IsSpace(r[|r| - 1])
  {
    if |s| > 0 && IsSpace(s[|s| - 1]) then
      var r := TrimEnd(s[..|s| - 1]);
      assert s[|r|..] == s[..|s| - 1][|r|..] + [s[|s| - 1]];
      r
    else s
  }

  /** Python's `str.strip()` with no argument. */
  function Strip(s: string): (r: string)
    ensures |r| > 0 ==> !IsSpace(r[0]) && !IsSpace(r[|r| - 1])
    ensures forall c :: c in r ==> c in s
  {
    var t := TrimStart(s);
    var r := TrimEnd(t);
    InSlice(s, |s| - |t|, |s|);
    InSlice(t, 0, |r|);
    r
  }

  /** A slice holds only characters of the sequence it is cut from. */
  lemma InSlice(s: string, i: nat, j: nat)
    requires i <= j <= |s|
    ensures forall c :: c in s[i..j] ==> c in s
  {
    forall c | c in s[i..j] ensures c in s {
      var k :| 0 <= k < j - i && s[i..j][k] == c;
      assert s[i + k] == c;
    }
  }

  /** Stripping removes exactly the white space around a text that has none at its ends. */
  lemma {:induction false} StripAround(a: string, t: string, b: string)
    requires AllSpace(a) && AllSpace(b)
    requires |t| > 0 ==> !IsSpace(t[0]) && !IsSpace(t[|t| - 1])
    ensures Strip(a + t + b) == t
  {
    if |t| == 0 {
      var s := a + t + b;
      assert AllSpace(s);
    } else {
      TrimStartSpaces(a, t + b);
      assert a + t + b == a + (t + b);
      TrimEndSpaces(t, b);
    }
  }

  /** A text with no white space at its ends is its own strip. */
  lemma {:induction false} StripBare(t: string)
    requires |t| > 0 && !IsSpace(t[0]) && !IsSpace(t[|t| - 1])
    ensures Strip(t) == t
  {
    StripAround("", t, "");
    assert "" + t + "" == t;
  }

  /** One leading space is stripped off. */
  lemma {:induction false} StripLeadingSpace(t: string)
    requires |t| > 0 && !IsSpace(t[0]) && !IsSpace(t[|t| - 1])
    ensures Strip(" " + t) == t
  {
    StripAround(" ", t, "");
    assert " " + t + "" == " " + t;
  }

  lemma {:induction false} TrimStartSpaces(a: string, u: string)
    requires AllSpace(a)
    requires |u| > 0 ==> !IsSpace(u[0])
    ensures TrimStart(a + u) == u
    decreases |a|
  {
    if |a| > 0 {
      assert (a + u)[1..] == a[1..] + u;
      TrimStartSpaces(a[1..], u);
    } else {
      assert a + u == u;
    }
  }

  lemma {:induction false} TrimEndSpaces(t: string, b: string)
    requires AllSpace(b)
    requires |t| > 0 ==> !IsSpace(t[|t| - 1])
    ensures TrimEnd(t + b) == t
    decreases |b|
  {
    var s := t + b;
    if |b| > 0 {
      var init := b[..|b| - 1];
      assert s[|s| - 1] == b[|b| - 1];
      assert s[..|s| - 1] == t + init;
      assert AllSpace(init) by {
        forall k | 0 <= k < |init| ensures IsSpace(init[k]) {
          assert init[k] == b[k];
        }
      }
      TrimEndSpaces(t, init);
      assert TrimEnd(s) == TrimEnd(t + init);
    } else {
      assert s == t;
    }
  }

  /** Python's `str.replace(pat, rep)`: every leftmost non-overlapping occurrence of
      `pat` is replaced by `rep`. */
  function ReplaceAll(s: string, pat: string, rep: string): (r: string)
    requires |pat| > 0
    ensures |rep| <= |pat| ==> |r| <= |s|
    ensures |rep| >= |pat| ==> |r| >= |s|
    decreases |s|
  {
    if |s| == 0 then []
    else if StartsWith(s, pat) then rep + ReplaceAll(s[|pat|..], pat, rep)
    else [s[0]] + ReplaceAll(s[1..], pat, rep)
  }

  /** Text with no occurrence of the pattern is left as it is. */
  lemma {:induction false} ReplaceAbsent(s: string, pat: string, rep: string)
    requires |pat| > 0
    requires forall k :: 0 <= k < |s| ==> !StartsWith(s[k..], pat)
    ensures ReplaceAll(s, pat, rep) == s
    decreases |s|
  {
    if |s| > 0 {
      assert s[0..] == s;
      forall k | 0 <= k < |s| - 1 ensures !StartsWith(s[1..][k..], pat) {
        assert s[1..][k..] == s[k + 1..];
      }
      ReplaceAbsent(s[1..], pat, rep);
      assert s == [s[0]] + s[1..];
    }
  }

  /** Python's `sep.join(items)`. */
  function Join(items: seq<string>, sep: string): string {
    if |items| == 0 then []
    else if |items| == 1 then items[0]
    else items[0] + sep + Join(items[1..], sep)
  }

  /** A join starts with its first item. */
  lemma {:induction false} JoinHead(items: seq<string>, sep: string)
    requires |items| > 0
    ensures StartsWith(Join(items, sep), items[0])
  {
    if |items| > 1 {
      var rest := sep + Join(items[1..], sep);
      assert Join(items, sep) == items[0] + rest;
      assert (items[0] + rest)[..|items[0]|] == items[0];
    }
  }

  /** Two items joined are the first, the separator and the second. */
  lemma {:induction false} JoinPair(x: string, y: string, sep: string)
    ensures Join([x, y], sep) == x + sep + y
  {
    assert [x, y][1..] == [y];
  }

  /** All items one after another. */
  function Concat(items: seq<string>): string {
    if |items| == 0 then [] else items[0] + Concat(items[1..])
  }

  lemma {:induction false} ConcatAppend(items: seq<string>, last: string)
    ensures Concat(items + [last]) == Concat(items) + last
  {
    if |items| == 0 {
      assert items + [last] == [last];
    } else {
      assert (items + [last])[1..] == items[1..] + [last];
      ConcatAppend(items[1..], last);
    }
  }

  // ---------------------------------------------------------------------------
  // Characters kept out

  /** No character of `s` is in `bad`, stated one character at a time. */
  predicate Avoids(s: string, bad: set<char>)
    decreases |s|
  {
    |s| == 0 || (s[0] !in bad && Avoids(s[1..], bad))
  }

  lemma {:induction false} AvoidsNotIn(s: string, bad: set<char>, c: char)
    requires Avoids(s, bad) && c in bad
    ensures c !in s
    decreases |s|
  {
    if |s| > 0 {
      AvoidsNotIn(s[1..], bad, c);
      assert s == [s[0]] + s[1..];
    }
  }

  lemma {:induction false} AvoidsAppend(a: string, b: string, bad: set<char>)
    ensures Avoids(a + b, bad) <==> Avoids(a, bad) && Avoids(b, bad)
    decreases |a|
  {
    if |a| > 0 {
      AvoidsAppend(a[1..], b, bad);
      assert (a + b)[1..] == a[1..] + b;
    } else {
      assert a + b == b;
    }
  }

  lemma {:induction false} AvoidsFewer(s: string, bad: set<char>, fewer: set<char>)
    requires Avoids(s, bad) && fewer <= bad
    ensures Avoids(s, fewer)
    decreases |s|
  {
    if |s| > 0 {
      AvoidsFewer(s[1..], bad, fewer);
    }
  }

  /** Stated at every index, no character of `s` is in `bad`. */
  lemma {:induction false} AvoidsByIndex(s: string, bad: set<char>)
    requires forall i :: 0 <= i < |s| ==> s[i] !in bad
    ensures Avoids(s, bad)
    decreases |s|
  {
    if |s| > 0 {
      assert forall i :: 0 <= i < |s[1..]| ==> s[1..][i] == s[i + 1];
      AvoidsByIndex(s[1..], bad);
    }
  }
}
