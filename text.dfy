/**
 * The `java.lang.String` / `Integer` operations that the GraphViz writer and loader of Graph.java use,
 * with the JDK's semantics: `trim`, `replace` of one character, `contains`, `split` with a literal
 * separator, `Integer.parseInt`, `Integer.toString`, and the line splitting of `BufferedReader.readLine`.
 */
module JavaText {
  import opened Wrappers

  /** The exceptions the loader can raise, as values. */
  datatype Failure =
    | NumberFormat(input: string)   // NumberFormatException from Integer.parseInt
    | IndexOutOfBounds(index: nat)  // ArrayIndexOutOfBoundsException on the result of split
    | NullPointer                   // NullPointerException: a null reference was dereferenced

  /** Range of Java's `int`, the range `Integer.parseInt` accepts. */
  const INT_MIN: int := -0x8000_0000
  const INT_MAX: int := 0x7fff_ffff

  /** `String.trim` removes every leading and trailing character whose code is at most U+0020. */
  predicate Blank(c: char)
  {
    c <= ' '
  }

  /** Leading blanks dropped: the longest suffix of `s` that does not start with a blank. */
  function TrimStart(s: string): (r: string)
    ensures |r| <= |s| && r == s[|s| - |r|..]
    ensures r == [] || !Blank(r[0])
    ensures forall k :: 0 <= k < |s| - |r| ==> Blank(s[k])
  {
    if s != [] && Blank(s[0]) then TrimStart(s[1..]) else s
  }

  /** Trailing blanks dropped: the longest prefix of `s` that does not end with a blank. */
  function TrimEnd(s: string): (r: string)
    ensures |r| <= |s| && r == s[..|r|]
    ensures r == [] || !Blank(r[|r| - 1])
    ensures forall k :: |r| <= k < |s| ==> Blank(s[k])
  {
    if s != [] && Blank(s[|s| - 1]) then TrimEnd(s[..|s| - 1]) else s
  }

  /** `s.trim()`. */
  function Trim(s: string): (r: string)
    ensures r == [] || (!Blank(r[0]) && !Blank(r[|r| - 1]))
    ensures |r| <= |s|
  {
    var t := TrimStart(s);
    var r := TrimEnd(t);
    assert r == [] || r[0] == t[0];
    r
  }

  /** A string that `trim` leaves alone: non-empty, no blank at either end. */
  ghost predicate Trimmed(t: string)
  {
    t != [] && !Blank(t[0]) && !Blank(t[|t| - 1])
  }

  /** Padding a trimmed string with blanks on both sides is undone by `trim`. */
  lemma TrimPadded(w: string, t: string, w': string)
    requires forall k :: 0 <= k < |w| ==> Blank(w[k])
    requires forall k :: 0 <= k < |w'| ==> Blank(w'[k])
    requires Trimmed(t)
    ensures Trim(w + t + w') == t
  {
    var a := t + w';
    assert a[0] == t[0];
    TrimStartPadded(w, a);
    ConcatAssoc(w, t, w');
    TrimEndPadded(t, w');
  }

  /** Leading blanks before a non-blank character are exactly what `TrimStart` drops. */
  lemma TrimStartPadded(w: string, a: string)
    requires forall k :: 0 <= k < |w| ==> Blank(w[k])
    requires a != [] && !Blank(a[0])
    ensures TrimStart(w + a) == a
  {
    var s := w + a;
    var r := TrimStart(s);
    var cut := |s| - |r|;
    assert !Blank(s[|w|]);
    assert r[0] == s[cut];
    assert cut == |w|;
    assert r == s[|w|..];
  }

  /** Trailing blanks after a non-blank character are exactly what `TrimEnd` drops. */
  lemma TrimEndPadded(t: string, w': string)
    requires forall k :: 0 <= k < |w'| ==> Blank(w'[k])
    requires t != [] && !Blank(t[|t| - 1])
    ensures TrimEnd(t + w') == t
  {
    var a := t + w';
    var b := TrimEnd(a);
    assert !Blank(a[|t| - 1]);
    assert b[|b| - 1] == a[|b| - 1];
    assert |b| == |t|;
    assert b == a[..|t|];
  }

  /** `s.replace(";", "")` for a one-character target `c`: every occurrence of `c` removed. */
  function RemoveChar(s: string, c: char): (r: string)
    ensures forall x :: x in r <==> x in s && x != c
    ensures |r| <= |s|
  {
    if s == [] then []
    else (if s[0] == c then [] else [s[0]]) + RemoveChar(s[1..], c)
  }

  /** Removing a character that does not occur changes nothing. */
  lemma {:induction false} RemoveAbsent(s: string, c: char)
    requires c !in s
    ensures RemoveChar(s, c) == s
  {
    if s != [] {
      RemoveAbsent(s[1..], c);
      assert s == [s[0]] + s[1..];
    }
  }

  /** Removal distributes over concatenation. */
  lemma {:induction false} RemoveConcat(s: string, t: string, c: char)
    ensures RemoveChar(s + t, c) == RemoveChar(s, c) + RemoveChar(t, c)
  {
    if s != [] {
      RemoveConcat(s[1..], t, c);
      assert (s + t)[1..] == s[1..] + t;
    } else {
      assert s + t == t;
    }
  }

  /** `t` occurs in `s` starting at index `i`. */
  ghost predicate OccursAt(s: string, t: string, i: int)
  {
    0 <= i <= |s| - |t| && s[i..i + |t|] == t
  }

  /** `s.contains(t)`: `t` occurs in `s` as a contiguous block. */
  function Contains(s: string, t: string): (b: bool)
    ensures b <==> exists i :: OccursAt(s, t, i)
    decreases |s|
  {
    if |s| < |t| then false
    else if s[..|t|] == t then
      assert OccursAt(s, t, 0);
      true
    else
      var b := Contains(s[1..], t);
      assert b ==> exists i :: OccursAt(s, t, i) by {
        if b {
          var i :| OccursAt(s[1..], t, i);
          assert s[i + 1..i + 1 + |t|] == t;
          assert OccursAt(s, t, i + 1);
        }
      }
      assert (exists i :: OccursAt(s, t, i)) ==> b by {
        if exists i :: OccursAt(s, t, i) {
          var i :| OccursAt(s, t, i);
          assert i != 0;
          assert s[1..][i - 1..i - 1 + |t|] == t;
          assert OccursAt(s[1..], t, i - 1);
        }
      }
      b
  }

  /** The pieces of a list joined back with the separator between consecutive pieces. */
  function Join(pieces: seq<string>, sep: string): string
  {
    if pieces == [] then []
    else if |pieces| == 1 then pieces[0]
    else pieces[0] + sep + Join(pieces[1..], sep)
  }

  /**
   * `s` cut at every non-overlapping occurrence of `sep`, scanning from the left, keeping every
   * piece, empty or not. Joining the pieces with `sep` gives `s` back.
   */
  function SplitAll(s: string, sep: string): (r: seq<string>)
    requires sep != []
    ensures r != [] && Join(r, sep) == s
    decreases |s|
  {
    if |s| < |sep| then [s]
    else if s[..|sep|] == sep then
      var r := SplitAll(s[|sep|..], sep);
      JoinEmptyFirst(r, sep);
      assert s == sep + s[|sep|..];
      [[]] + r
    else
      var r := SplitAll(s[1..], sep);
      JoinExtendFirst(s[0], r, sep);
      assert s == [s[0]] + s[1..];
      [[s[0]] + r[0]] + r[1..]
  }

  /** An empty first piece contributes only the separator after it. */
  lemma JoinEmptyFirst(r: seq<string>, sep: string)
    requires r != []
    ensures Join([[]] + r, sep) == sep + Join(r, sep)
  {
    assert ([[]] + r)[1..] == r;
  }

  /** One more character at the front of the first piece. */
  lemma JoinExtendFirst(c: char, r: seq<string>, sep: string)
    requires r != []
    ensures Join([[c] + r[0]] + r[1..], sep) == [c] + Join(r, sep)
  {
    var r' := [[c] + r[0]] + r[1..];
    assert r'[1..] == r[1..];
    if |r| > 1 {
      assert [c] + r[0] + sep + Join(r[1..], sep) == [c] + (r[0] + sep + Join(r[1..], sep));
    }
  }

  /** Trailing empty pieces dropped, as `split` does. */
  function DropTrailingEmpty(p: seq<string>): (r: seq<string>)
    ensures |r| <= |p| && r == p[..|r|]
    ensures r == [] || r[|r| - 1] != []
    ensures forall k :: |r| <= k < |p| ==> p[k] == []
  {
    if p != [] && p[|p| - 1] == [] then DropTrailingEmpty(p[..|p| - 1]) else p
  }

  /**
   * `s.split(sep)` for a separator without regular-expression metacharacters: the string itself
   * when `sep` does not occur, otherwise the pieces without the trailing empty ones (a leading
   * empty piece is kept when `s` starts with `sep`).
   */
  function JavaSplit(s: string, sep: string): (r: seq<string>)
    requires sep != []
  {
    var p := SplitAll(s, sep);
    if |p| == 1 then p else DropTrailingEmpty(p)
  }

  /** Without an occurrence of the separator, `split` returns the string itself. */
  lemma {:induction false} SplitWithoutSeparator(s: string, sep: string)
    requires sep != [] && !Contains(s, sep)
    ensures SplitAll(s, sep) == [s] && JavaSplit(s, sep) == [s]
    decreases |s|
  {
    if |s| >= |sep| {
      assert !OccursAt(s, sep, 0);
      assert !Contains(s[1..], sep);
      SplitWithoutSeparator(s[1..], sep);
    }
  }

  /** `sep` does not occur in a string none of whose characters is the first of `sep`. */
  lemma {:induction false} SplitNoSep(s: string, sep: string)
    requires sep != [] && sep[0] !in s
    ensures SplitAll(s, sep) == [s]
    decreases |s|
  {
    if |s| >= |sep| {
      assert s[..|sep|][0] == s[0];
      SplitNoSep(s[1..], sep);
    }
  }

  /** The first cut falls after a prefix in which the separator's first character does not occur. */
  lemma {:induction false} SplitFirst(p: string, sep: string, q: string)
    requires sep != [] && sep[0] !in p
    ensures SplitAll(p + sep + q, sep) == [p] + SplitAll(q, sep)
    decreases |p|
  {
    var s := p + sep + q;
    if p == [] {
      assert s[..|sep|] == sep && s[|sep|..] == q;
    } else {
      assert s[..|sep|][0] == p[0] != sep[0];
      assert s[1..] == p[1..] + sep + q;
      SplitFirst(p[1..], sep, q);
      assert [p[0]] + p[1..] == p;
    }
  }

  /** `s.split(sep)` of `p + sep + q` where neither side mentions the separator: just the two sides. */
  lemma SplitPair(p: string, sep: string, q: string)
    requires sep != [] && sep[0] !in p && sep[0] !in q && q != []
    ensures JavaSplit(p + sep + q, sep) == [p, q]
  {
    SplitFirst(p, sep, q);
    SplitNoSep(q, sep);
  }

  predicate IsDigit(c: char)
  {
    '0' <= c <= '9'
  }

  /** The decimal value of a string of ASCII digits, most significant first. */
  function DigitsValue(ds: string): (n: nat)
    requires forall k :: 0 <= k < |ds| ==> IsDigit(ds[k])
  {
    if ds == [] then 0
    else
      assert IsDigit(ds[|ds| - 1]);
      DigitsValue(ds[..|ds| - 1]) * 10 + (ds[|ds| - 1] as int - '0' as int)
  }

  /**
   * `Integer.parseInt(s)`: an optional sign, then one or more decimal digits, and the value must fit
   * in an `int`; anything else is a NumberFormatException carrying the input.
   */
  function ParseInt(s: string): (r: Result<int, Failure>)
    ensures r.Ok? ==> INT_MIN <= r.value <= INT_MAX
    ensures r.Err? ==> r.error == NumberFormat(s)
    ensures r.Ok? ==> s != [] && (IsDigit(s[0]) || s[0] == '-' || s[0] == '+')
    ensures r.Ok? && s[0] == '-' ==> r.value <= 0
    ensures r.Ok? && s[0] != '-' ==> r.value >= 0
  {
    if s == [] then Err(NumberFormat(s))
    else
      var digits := if s[0] == '-' || s[0] == '+' then s[1..] else s;
      if digits == [] || exists k :: 0 <= k < |digits| && !IsDigit(digits[k]) then Err(NumberFormat(s))
      else
        var v: int := if s[0] == '-' then 0 - DigitsValue(digits) else DigitsValue(digits);
        if INT_MIN <= v <= INT_MAX then Ok(v) else Err(NumberFormat(s))
  }

  function DigitChar(d: nat): (c: char)
    requires d < 10
    ensures IsDigit(c) && c as int - '0' as int == d
  {
    ('0' as int + d) as char
  }

  /** The decimal digits of `n`, without leading zeros. */
  function Digits(n: nat): (r: string)
    ensures r != [] && forall k :: 0 <= k < |r| ==> IsDigit(r[k])
    ensures DigitsValue(r) == n
    ensures |r| > 1 ==> r[0] != '0'
  {
    if n < 10 then [DigitChar(n)]
    else
      var r := Digits(n / 10) + [DigitChar(n % 10)];
      assert r[..|r| - 1] == Digits(n / 10);
      r
  }

  /** `Integer.toString(n)` (and `"" + n`): a minus sign for negatives, then the digits. */
  function IntToString(n: int): (r: string)
    ensures r != [] && '\n' !in r && ';' !in r
    ensures n >= 0 ==> '-' !in r && Trimmed(r)
  {
    if n < 0 then "-" + Digits(-n) else Digits(n)
  }

  /** `Integer.parseInt` reads back what `Integer.toString` writes, for every `int`. */
  lemma ParseIntToString(n: int)
    requires INT_MIN <= n <= INT_MAX
    ensures ParseInt(IntToString(n)) == Ok(n)
  {
    var s := IntToString(n);
    if n < 0 {
      assert s[1..] == Digits(-n);
    }
  }

  /** Index of the first line terminator in `s`, or `|s|` when there is none. */
  function LineEnd(s: string): (i: nat)
    ensures i <= |s| && '\n' !in s[..i]
    ensures i < |s| ==> s[i] == '\n'
  {
    if s == [] || s[0] == '\n' then 0
    else
      var i := LineEnd(s[1..]) + 1;
      assert s[..i] == [s[0]] + s[1..][..i - 1];
      i
  }

  /**
   * The successive results of `BufferedReader.readLine` on a text whose lines end with `'\n'`: each
   * line without its terminator; a last line without terminator counts when it is not empty.
   */
  function Lines(s: string): seq<string>
    decreases |s|
  {
    if s == [] then []
    else
      var i := LineEnd(s);
      [s[..i]] + (if i < |s| then Lines(s[i + 1..]) else [])
  }

  /** Each line followed by a terminator, as a writer that appends `"...\n"` per line produces. */
  function Unlines(ls: seq<string>): string
  {
    if ls == [] then [] else ls[0] + "\n" + Unlines(ls[1..])
  }

  /** Writing lines one after another is concatenation of their texts. */
  lemma {:induction false} UnlinesConcat(a: seq<string>, b: seq<string>)
    ensures Unlines(a + b) == Unlines(a) + Unlines(b)
  {
    if a != [] {
      assert (a + b)[1..] == a[1..] + b;
      UnlinesConcat(a[1..], b);
    } else {
      assert a + b == b;
    }
  }

  /** Lines that contain no terminator. */
  ghost predicate SingleLines(ls: seq<string>)
  {
    forall k :: 0 <= k < |ls| ==> '\n' !in ls[k]
  }

  /** Reading back terminated lines that contain no terminator recovers them. */
  lemma {:induction false} LinesUnlines(ls: seq<string>, t: string)
    requires SingleLines(ls)
    ensures Lines(Unlines(ls) + t) == ls + Lines(t)
  {
    if ls != [] {
      var tail := ls[1..];
      assert SingleLines(tail) by {
        forall k | 0 <= k < |tail|
          ensures '\n' !in tail[k]
        {
          assert tail[k] == ls[k + 1];
        }
      }
      LinesUnlines(tail, t);
      assert '\n' !in ls[0];
      assert ls == [ls[0]] + tail;
      LinesUnlinesStep(ls[0], tail, t);
      ConcatAssoc([ls[0]], tail, Lines(t));
    } else {
      assert Unlines(ls) + t == t;
    }
  }

  /** Concatenation regroups freely. */
  lemma ConcatAssoc<T>(a: seq<T>, b: seq<T>, c: seq<T>)
    ensures a + b + c == a + (b + c)
  {
  }

  /** The inductive step of `LinesUnlines`: one more line in front. */
  lemma LinesUnlinesStep(l: string, tail: seq<string>, t: string)
    requires '\n' !in l
    ensures Lines(Unlines([l] + tail) + t) == [l] + Lines(Unlines(tail) + t)
  {
    var rest := Unlines(tail) + t;
    UnlinesCons(l, tail, t);
    LinesCons(l, rest);
  }

  /** Unfolding `Unlines` once, with a text after it. */
  lemma UnlinesCons(l: string, tail: seq<string>, t: string)
    ensures Unlines([l] + tail) + t == l + ("\n" + (Unlines(tail) + t))
  {
    assert ([l] + tail)[1..] == tail;
  }

  /** One terminated line in front of a text is read first. */
  lemma LinesCons(l: string, rest: string)
    requires '\n' !in l
    ensures Lines(l + ("\n" + rest)) == [l] + Lines(rest)
  {
    var s := l + ("\n" + rest);
    LineEndAt(l, "\n" + rest);
    assert s[..|l|] == l && s[|l| + 1..] == rest;
  }

  /** The first terminator of `l + rest` is the first of `rest` when `l` has none. */
  lemma {:induction false} LineEndAt(l: string, rest: string)
    requires '\n' !in l && rest != [] && rest[0] == '\n'
    ensures LineEnd(l + rest) == |l|
  {
    if l != [] {
      assert (l + rest)[1..] == l[1..] + rest;
      LineEndAt(l[1..], rest);
    }
  }

  /** A non-empty text without terminator is read as one line. */
  lemma LastLine(t: string)
    requires t != [] && '\n' !in t
    ensures Lines(t) == [t]
  {
    assert t[..|t|] == t;
  }
}
