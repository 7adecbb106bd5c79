/** The few pieces of Python string behaviour the script relies on:
    `str.strip()`, `s.split(c, 1)` and `s.split(c)[0]`, `re.split('[...]', s)`
    on a class of single characters, `sep.join(parts)`, the slice `s[:n]`
    and the decimal rendering of a count inside an f-string. Python strings
    are sequences of code points, and so is a Dafny `string`. */
module Text {
  import opened Wrappers

  /** The characters for which Python's `str.isspace()` holds; `str.strip()`
      without an argument removes exactly these from both ends. */
  predicate IsSpace(c: char) {
    || c == ' '
    || ('\t' <= c <= '\r')
    || ('\U{1C}' <= c <= '\U{1F}')
    || c == '\U{85}' || c == '\U{A0}' || c == '\U{1680}'
    || ('\U{2000}' <= c <= '\U{200A}')
    || c == '\U{2028}' || c == '\U{2029}' || c == '\U{202F}' || c == '\U{205F}'
    || c == '\U{3000}'
  }

  /** `s` with its leading whitespace removed. */
  function TrimLeft(s: string): (r: string)
    ensures |r| <= |s|
    decreases |s|
  {
    if s != [] && IsSpace(s[0]) then TrimLeft(s[1..]) else s
  }

  /** What `TrimLeft` removes is whitespace, and what it keeps is the suffix
      of `s` that starts with the first other character. (Kept out of the
      function's own contract, where its slice equality makes every use of
      the function expensive to verify.) */
  lemma {:induction false} TrimLeftSpec(s: string)
    ensures var r := TrimLeft(s);
      && r == s[|s| - |r|..]
      && (forall k :: 0 <= k < |s| - |r| ==> IsSpace(s[k]))
      && (r != [] ==> !IsSpace(r[0]))
    decreases |s|
  {
    if s != [] && IsSpace(s[0]) {
      TrimLeftSpec(s[1..]);
      var r := TrimLeft(s);
      assert s[1..][|s| - 1 - |r|..] == s[|s| - |r|..];
      forall k | 0 <= k < |s| - |r|
        ensures IsSpace(s[k])
      {
        if k > 0 {
          assert s[k] == s[1..][k - 1];
        }
      }
    }
  }

  /** `s` with its trailing whitespace removed. */
  function TrimRight(s: string): (r: string)
    ensures |r| <= |s|
    decreases |s|
  {
    if s != [] && IsSpace(s[|s| - 1]) then TrimRight(s[..|s| - 1]) else s
  }

  /** What `TrimRight` removes is whitespace, and what it keeps is the prefix
      of `s` that ends with the last other character. */
  lemma {:induction false} TrimRightSpec(s: string)
    ensures var r := TrimRight(s);
      && r == s[..|r|]
      && (forall k :: |r| <= k < |s| ==> IsSpace(s[k]))
      && (r != [] ==> !IsSpace(r[|r| - 1]))
    decreases |s|
  {
    if s != [] && IsSpace(s[|s| - 1]) {
      var n := |s| - 1;
      TrimRightSpec(s[..n]);
      var r := TrimRight(s);
      assert s[..n][..|r|] == s[..|r|];
      forall k | |r| <= k < |s|
        ensures IsSpace(s[k])
      {
        if k < n {
          assert s[k] == s[..n][k];
        }
      }
    }
  }

  /** `r` is a result of stripping `s`, taken from position `i`: the slice of
      `s` that is left when only whitespace is cut off on either side and no
      whitespace remains at either end of it. */
  ghost predicate StrippedAt(s: string, r: string, i: nat)
  {
    && i + |r| <= |s|
    && r == s[i..i + |r|]
    && (forall k :: 0 <= k < i ==> IsSpace(s[k]))
    && (forall k :: i + |r| <= k < |s| ==> IsSpace(s[k]))
    && (r != [] ==> !IsSpace(r[0]) && !IsSpace(r[|r| - 1]))
  }

  /** Python's `s.strip()`. */
  function Strip(s: string): (r: string)
    ensures exists i: nat :: StrippedAt(s, r, i)
  {
    var l := TrimLeft(s);
    var r := TrimRight(l);
    TrimLeftSpec(s);
    TrimRightSpec(l);
    assert StrippedAt(s, r, |s| - |l|) by {
      assert r == l[..|r|] && l == s[|s| - |l|..];
      forall k | |s| - |l| + |r| <= k < |s|
        ensures IsSpace(s[k])
      {
        assert s[k] == l[k - (|s| - |l|)];
      }
    }
    r
  }

  /** There is only one way to strip a string: any slice described by
      `StrippedAt` is the one `Strip` returns. */
  lemma StripUnique(s: string, r: string, i: nat)
    requires StrippedAt(s, r, i)
    ensures r == Strip(s)
  {
    var t := Strip(s);
    var j: nat :| StrippedAt(s, t, j);
    if r != [] && t != [] {
      assert i == j;
      assert |r| == |t|;
    }
  }

  /** Stripping twice changes nothing more than stripping once. */
  lemma StripIdempotent(s: string)
    ensures Strip(Strip(s)) == Strip(s)
  {
    var r := Strip(s);
    assert StrippedAt(r, r, 0);
    StripUnique(r, r, 0);
  }

  /** A stripped string holds no character that the original does not. */
  lemma StripKeepsOut(s: string, c: char)
    requires c !in s
    ensures c !in Strip(s)
  {
    var i: nat :| StrippedAt(s, Strip(s), i);
    assert forall k :: 0 <= k < |Strip(s)| ==> Strip(s)[k] == s[i + k];
  }

  /** The number of times `c` occurs in `s`. */
  function Count(s: string, c: char): (n: nat)
    ensures n == 0 <==> c !in s
    ensures n <= |s|
  {
    if s == [] then 0 else (if s[0] == c then 1 else 0) + Count(s[1..], c)
  }

  lemma {:induction false} CountAppend(a: string, b: string, c: char)
    ensures Count(a + b, c) == Count(a, c) + Count(b, c)
  {
    if a != [] {
      assert (a + b)[1..] == a[1..] + b;
      CountAppend(a[1..], b, c);
    } else {
      assert a + b == b;
    }
  }

  /** Python's `s.split(c, 1)`: `None` when `c` does not occur (the split then
      yields one part), otherwise the text before the first `c` and the text
      after it. */
  function SplitFirst(s: string, c: char): (r: Option<(string, string)>)
    ensures r.None? <==> c !in s
    ensures r.Some? ==> s == r.value.0 + [c] + r.value.1 && c !in r.value.0
  {
    if s == [] then None
    else if s[0] == c then Some(([], s[1..]))
    else
      match SplitFirst(s[1..], c)
      case None => None
      case Some((u, v)) => Some(([s[0]] + u, v))
  }

  /** The converse of `SplitFirst`'s contract: a string built from a `c`-free
      head, `c` and any tail splits back into that head and tail. */
  lemma {:induction false} SplitFirstOfJoined(u: string, c: char, v: string)
    requires c !in u
    ensures SplitFirst(u + [c] + v, c) == Some((u, v))
  {
    if u == [] {
      assert u + [c] + v == [c] + v;
    } else {
      assert (u + [c] + v)[1..] == u[1..] + [c] + v;
      SplitFirstOfJoined(u[1..], c, v);
      assert [u[0]] + u[1..] == u;
    }
  }

  /** Python's `s.split(c)[0]`: everything before the first `c`, or all of `s`. */
  function BeforeFirst(s: string, c: char): (r: string)
    ensures c !in r && r <= s
    ensures |r| < |s| <==> c in s
    ensures |r| < |s| ==> s[|r|] == c
  {
    match SplitFirst(s, c)
    case None => s
    case Some((u, v)) =>
      assert s[..|u|] == u && s[|u|] == c;
      u
  }

  /** No character of `s` belongs to `seps`. */
  predicate Avoids(s: string, seps: set<char>) {
    forall k :: 0 <= k < |s| ==> s[k] !in seps
  }

  /** Python's `re.split('[...]', s)` for a class `seps` of single characters:
      the pieces of `s` between the separators, empty ones included; a string
      without separators, the empty one too, is a single piece. */
  function SplitAny(s: string, seps: set<char>): (r: seq<string>)
    ensures |r| >= 1
    ensures forall k :: 0 <= k < |r| ==> Avoids(r[k], seps)
    decreases |s|
  {
    if s == [] then [""]
    else
      var rest := SplitAny(s[1..], seps);
      if s[0] in seps then [""] + rest
      else [[s[0]] + rest[0]] + rest[1..]
  }

  /** The separators of `s`, in order. */
  function SepsOf(s: string, seps: set<char>): (r: string)
    ensures forall k :: 0 <= k < |r| ==> r[k] in seps
    decreases |s|
  {
    if s == [] then ""
    else if s[0] in seps then [s[0]] + SepsOf(s[1..], seps)
    else SepsOf(s[1..], seps)
  }

  /** The pieces put back together with one glue character between each two. */
  function Weave(pieces: seq<string>, glue: string): string
    requires |pieces| == |glue| + 1
    decreases |glue|
  {
    if glue == [] then pieces[0]
    else pieces[0] + [glue[0]] + Weave(pieces[1..], glue[1..])
  }

  /** Splitting loses nothing: weaving the pieces back with the separators that
      were cut out gives the original string. */
  lemma {:induction false} SplitAnyWeave(s: string, seps: set<char>)
    ensures |SplitAny(s, seps)| == |SepsOf(s, seps)| + 1
    ensures Weave(SplitAny(s, seps), SepsOf(s, seps)) == s
    decreases |s|
  {
    if s != [] {
      SplitAnyWeave(s[1..], seps);
      var rest := SplitAny(s[1..], seps);
      var g := SepsOf(s[1..], seps);
      if s[0] in seps {
        assert SplitAny(s, seps)[1..] == rest;
        assert s == [s[0]] + s[1..];
      } else {
        var ps := SplitAny(s, seps);
        if g == [] {
          assert Weave(ps, g) == [s[0]] + rest[0];
        } else {
          assert ps[1..] == rest[1..];
          calc {
            Weave(ps, g);
            ([s[0]] + rest[0]) + [g[0]] + Weave(rest[1..], g[1..]);
            [s[0]] + (rest[0] + [g[0]] + Weave(rest[1..], g[1..]));
            [s[0]] + Weave(rest, g);
          }
        }
        assert s == [s[0]] + s[1..];
      }
    }
  }

  /** Splitting a separator-free head followed by more text joins the head to
      the first piece of the rest. */
  lemma {:induction false} SplitAnyHead(a: string, b: string, seps: set<char>)
    requires Avoids(a, seps)
    ensures SplitAny(a + b, seps) == [a + SplitAny(b, seps)[0]] + SplitAny(b, seps)[1..]
    decreases |a|
  {
    if a == [] {
      assert a + b == b;
      assert a + SplitAny(b, seps)[0] == SplitAny(b, seps)[0];
      assert SplitAny(b, seps) == [SplitAny(b, seps)[0]] + SplitAny(b, seps)[1..];
    } else {
      assert (a + b)[0] == a[0] && a[0] !in seps;
      assert (a + b)[1..] == a[1..] + b;
      SplitAnyHead(a[1..], b, seps);
      assert [a[0]] + (a[1..] + SplitAny(b, seps)[0]) == a + SplitAny(b, seps)[0];
    }
  }

  /** The other direction of the round trip: weaving separator-free pieces with
      separators and splitting again gives the same pieces back. */
  lemma {:induction false} WeaveSplitAny(pieces: seq<string>, glue: string, seps: set<char>)
    requires |pieces| == |glue| + 1
    requires forall k :: 0 <= k < |pieces| ==> Avoids(pieces[k], seps)
    requires forall k :: 0 <= k < |glue| ==> glue[k] in seps
    ensures SplitAny(Weave(pieces, glue), seps) == pieces
    decreases |glue|
  {
    if glue == [] {
      SplitAnyHead(pieces[0], "", seps);
      assert pieces[0] + "" == pieces[0];
    } else {
      var tail := Weave(pieces[1..], glue[1..]);
      WeaveSplitAny(pieces[1..], glue[1..], seps);
      assert pieces[0] + [glue[0]] + tail == pieces[0] + ([glue[0]] + tail);
      SplitAnyHead(pieces[0], [glue[0]] + tail, seps);
      assert ([glue[0]] + tail)[1..] == tail;
      assert pieces[0] + "" == pieces[0];
      assert pieces == [pieces[0]] + pieces[1..];
    }
  }

  /** Python's `sep.join(parts)`. */
  function Join(parts: seq<string>, sep: string): string
    decreases |parts|
  {
    if parts == [] then ""
    else if |parts| == 1 then parts[0]
    else parts[0] + sep + Join(parts[1..], sep)
  }

  /** Where part `i` starts in `Join(parts, sep)`: after every earlier part and
      the separator that follows each of them. */
  function Offset(parts: seq<string>, sep: string, i: nat): nat
    requires i <= |parts|
  {
    if i == 0 then 0 else Offset(parts, sep, i - 1) + |parts[i - 1]| + |sep|
  }

  /** Offsets past the first part are those in the remaining parts, shifted
      by the first part and its separator. */
  lemma {:induction false} OffsetTail(parts: seq<string>, sep: string, i: nat)
    requires 0 < i <= |parts|
    ensures Offset(parts, sep, i) == |parts[0]| + |sep| + Offset(parts[1..], sep, i - 1)
  {
    if i > 1 {
      OffsetTail(parts, sep, i - 1);
      assert parts[1..][i - 2] == parts[i - 1];
    }
  }

  /** Every part stands in the joined text at its offset, followed by the
      separator unless it is the last, and nothing follows the last part. */
  lemma {:induction false} JoinAt(parts: seq<string>, sep: string, i: nat)
    requires i < |parts|
    ensures Offset(parts, sep, i) + |parts[i]| <= |Join(parts, sep)|
    ensures Join(parts, sep)[Offset(parts, sep, i)..Offset(parts, sep, i) + |parts[i]|] == parts[i]
    ensures i + 1 < |parts| ==>
      Offset(parts, sep, i + 1) <= |Join(parts, sep)| &&
      Join(parts, sep)[Offset(parts, sep, i) + |parts[i]|..Offset(parts, sep, i + 1)] == sep
    ensures i + 1 == |parts| ==> |Join(parts, sep)| == Offset(parts, sep, i) + |parts[i]|
    decreases i
  {
    if |parts| == 1 {
    } else if i == 0 {
      JoinFirst(parts, sep);
    } else {
      JoinAt(parts[1..], sep, i - 1);
      JoinLater(parts, sep, i);
    }
  }

  /** `JoinAt` for a joined text that follows a head `h`. */
  lemma JoinedAfter(h: string, parts: seq<string>, sep: string, i: nat)
    requires i < |parts|
    ensures var t := h + Join(parts, sep);
      var at := |h| + Offset(parts, sep, i);
      && t[..|h|] == h
      && at + |parts[i]| <= |t|
      && t[at..at + |parts[i]|] == parts[i]
      && (i + 1 < |parts| ==>
            && |h| + Offset(parts, sep, i + 1) <= |t|
            && t[at + |parts[i]|..|h| + Offset(parts, sep, i + 1)] == sep)
      && (i + 1 == |parts| ==> |t| == at + |parts[i]|)
  {
    var j := Join(parts, sep);
    var o := Offset(parts, sep, i);
    JoinAt(parts, sep, i);
    assert (h + j)[|h| + o..|h| + o + |parts[i]|] == j[o..o + |parts[i]|];
    if i + 1 < |parts| {
      var o' := Offset(parts, sep, i + 1);
      assert (h + j)[|h| + o + |parts[i]|..|h| + o'] == j[o + |parts[i]|..o'];
    }
  }

  /** `JoinAt` for the first of several parts. */
  lemma JoinFirst(parts: seq<string>, sep: string)
    requires |parts| > 1
    ensures |parts[0]| + |sep| <= |Join(parts, sep)|
    ensures Join(parts, sep)[..|parts[0]|] == parts[0]
    ensures Join(parts, sep)[|parts[0]|..|parts[0]| + |sep|] == sep
  {
    var j := Join(parts, sep);
    assert j == parts[0] + sep + Join(parts[1..], sep);
  }

  /** The step of `JoinAt`: what holds of part `i - 1` of the remaining parts
      holds of part `i` of all of them, shifted by the first part and its
      separator. */
  lemma JoinLater(parts: seq<string>, sep: string, i: nat)
    requires 0 < i < |parts|
    requires var rest := parts[1..];
      var o := Offset(rest, sep, i - 1);
      && o + |rest[i - 1]| <= |Join(rest, sep)|
      && Join(rest, sep)[o..o + |rest[i - 1]|] == rest[i - 1]
      && (i < |rest| ==>
            Offset(rest, sep, i) <= |Join(rest, sep)| &&
            Join(rest, sep)[o + |rest[i - 1]|..Offset(rest, sep, i)] == sep)
      && (i == |rest| ==> |Join(rest, sep)| == o + |rest[i - 1]|)
    ensures Offset(parts, sep, i) + |parts[i]| <= |Join(parts, sep)|
    ensures Join(parts, sep)[Offset(parts, sep, i)..Offset(parts, sep, i) + |parts[i]|] == parts[i]
    ensures i + 1 < |parts| ==>
      Offset(parts, sep, i + 1) <= |Join(parts, sep)| &&
      Join(parts, sep)[Offset(parts, sep, i) + |parts[i]|..Offset(parts, sep, i + 1)] == sep
    ensures i + 1 == |parts| ==> |Join(parts, sep)| == Offset(parts, sep, i) + |parts[i]|
  {
    var head := parts[0] + sep;
    var rest := Join(parts[1..], sep);
    assert Join(parts, sep) == head + rest;
    var o := Offset(parts[1..], sep, i - 1);
    OffsetTail(parts, sep, i);
    assert parts[1..][i - 1] == parts[i];
    assert (head + rest)[|head| + o..|head| + o + |parts[i]|] == rest[o..o + |parts[i]|];
    if i + 1 < |parts| {
      OffsetTail(parts, sep, i + 1);
      var o' := Offset(parts[1..], sep, i);
      assert (head + rest)[|head| + o + |parts[i]|..|head| + o'] == rest[o + |parts[i]|..o'];
    }
  }


  /** Python's `s[:n]` for a non-negative `n`: the first `n` characters, or all
      of `s` when it is shorter. */
  function Take(s: string, n: nat): (r: string)
    ensures r <= s
    ensures |r| == if |s| <= n then |s| else n
  {
    if |s| <= n then s else s[..n]
  }

  /** The decimal digit for `d`. */
  function Digit(d: nat): (c: char)
    requires d < 10
    ensures '0' <= c <= '9' && c as int - '0' as int == d
  {
    ('0' as int + d) as char
  }

  /** `str(n)` for a count: its decimal digits, without leading zeros. */
  function DecimalString(n: nat): (r: string)
    ensures |r| >= 1
    ensures forall k :: 0 <= k < |r| ==> '0' <= r[k] <= '9'
    ensures |r| > 1 ==> r[0] != '0'
    decreases n
  {
    if n < 10 then [Digit(n)] else DecimalString(n / 10) + [Digit(n % 10)]
  }

  /** The number a string of decimal digits denotes. */
  function DecimalValue(s: string): nat
    requires forall k :: 0 <= k < |s| ==> '0' <= s[k] <= '9'
    decreases |s|
  {
    if s == [] then 0
    else 10 * DecimalValue(s[..|s| - 1]) + (s[|s| - 1] as int - '0' as int)
  }

  /** Reading the rendered digits back gives the count that was rendered. */
  lemma {:induction false} DecimalRoundTrip(n: nat)
    ensures DecimalValue(DecimalString(n)) == n
    decreases n
  {
    if n >= 10 {
      DecimalRoundTrip(n / 10);
      var s := DecimalString(n);
      assert s[..|s| - 1] == DecimalString(n / 10);
    }
  }
}
