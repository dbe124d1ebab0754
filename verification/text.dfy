/** Character classes and string operations shared by the name and cell
    normalisers: whitespace, the "word" characters `[A-Za-z0-9_]`, ASCII
    lower-casing, stripping, and the replacement of every maximal run of
    characters of one class by a single separator character. */
module Text {

  /** Whitespace in the sense of Python's `str.isspace` (and of `\s` in a
      `str` pattern), restricted to the code points below 256. */
  predicate IsSpace(c: char) {
    || ('\t' <= c <= '\r')
    || ('\U{1C}' <= c <= '\U{1F}')
    || c == ' '
    || c == '\U{85}'
    || c == '\U{A0}'
  }

  /** The characters `[A-Za-z0-9_]` that a sanitised column name may hold. */
  predicate IsWordChar(c: char) {
    || ('A' <= c <= 'Z')
    || ('a' <= c <= 'z')
    || ('0' <= c <= '9')
    || c == '_'
  }

  predicate NotWordChar(c: char) {
    !IsWordChar(c)
  }

  function LowerChar(c: char): (r: char)
    ensures 'A' <= c <= 'Z' ==> 'a' <= r <= 'z' && r as int - c as int == 32
    ensures !('A' <= c <= 'Z') ==> r == c
  {
    if 'A' <= c <= 'Z' then (c as int + 32) as char else c
  }

  /** ASCII lower-casing, character by character. */
  function Lower(s: string): (r: string)
    ensures |r| == |s|
    ensures forall i :: 0 <= i < |s| ==> r[i] == LowerChar(s[i])
  {
    seq(|s|, i requires 0 <= i < |s| => LowerChar(s[i]))
  }

  /** The number of leading characters of `s` that satisfy `inRun`. */
  function RunLength(s: string, inRun: char -> bool): (n: nat)
    ensures n <= |s|
    ensures forall k :: 0 <= k < n ==> inRun(s[k])
    ensures n < |s| ==> !inRun(s[n])
    decreases |s|
  {
    if |s| > 0 && inRun(s[0]) then 1 + RunLength(s[1..], inRun) else 0
  }

  /** The number of trailing whitespace characters of `s`. */
  function TrailingSpace(s: string): (n: nat)
    ensures n <= |s|
    ensures forall k :: |s| - n <= k < |s| ==> IsSpace(s[k])
    ensures n < |s| ==> !IsSpace(s[|s| - 1 - n])
    decreases |s|
  {
    if |s| > 0 && IsSpace(s[|s| - 1]) then 1 + TrailingSpace(s[..|s| - 1]) else 0
  }

  /** Python's `str.strip()`: the text between the first and the last
      non-whitespace character, or the empty string when there is none. */
  function Strip(s: string): (r: string)
    ensures exists i, j :: 0 <= i <= j <= |s| && r == s[i..j]
    ensures forall k :: 0 <= k < |s| && !IsSpace(s[k]) ==> |r| > 0
    ensures |r| > 0 ==> !IsSpace(r[0]) && !IsSpace(r[|r| - 1])
  {
    var i := RunLength(s, IsSpace);
    if i == |s| then
      assert s[|s|..|s|] == "";
      ""
    else
      var j := |s| - TrailingSpace(s);
      assert i < j;
      s[i..j]
  }

  /** Where `Strip` cuts: the bounds of the slice it keeps. */
  lemma StripBounds(s: string) returns (i: nat, j: nat)
    ensures i <= j <= |s| && Strip(s) == s[i..j]
    ensures forall k :: 0 <= k < i ==> IsSpace(s[k])
    ensures forall k :: j <= k < |s| ==> IsSpace(s[k])
  {
    i := RunLength(s, IsSpace);
    if i == |s| {
      j := |s|;
      assert Strip(s) == s[i..j];
    } else {
      j := |s| - TrailingSpace(s);
      assert !IsSpace(s[i]);
    }
  }

  /** Stripping removes only whitespace: what it cuts off on either side is
      all whitespace. */
  lemma StripCutsSpace(s: string)
    ensures exists i, j :: 0 <= i <= j <= |s| && Strip(s) == s[i..j]
              && (forall k :: 0 <= k < i ==> IsSpace(s[k]))
              && (forall k :: j <= k < |s| ==> IsSpace(s[k]))
  {
    var i, j := StripBounds(s);
  }

  /** Stripping yields the empty string exactly for all-whitespace input. */
  lemma StripEmpty(s: string)
    ensures |Strip(s)| == 0 <==> forall k :: 0 <= k < |s| ==> IsSpace(s[k])
  {
    var i := RunLength(s, IsSpace);
    if i < |s| {
      assert !IsSpace(s[i]);
    }
  }

  /** A string that `Strip` leaves alone: it neither starts nor ends with
      whitespace. */
  lemma StripUnpadded(s: string)
    requires |s| > 0 ==> !IsSpace(s[0]) && !IsSpace(s[|s| - 1])
    ensures Strip(s) == s
  {
    if |s| > 0 {
      assert RunLength(s, IsSpace) == 0;
      assert TrailingSpace(s) == 0;
      assert s[0..|s|] == s;
    }
  }

  /** The suffix of `s` after its leading run-class characters. */
  function DropRun(s: string, inRun: char -> bool): (r: string)
    ensures |r| <= |s|
    ensures |r| > 0 ==> !inRun(r[0])
  {
    s[RunLength(s, inRun)..]
  }

  /** Every maximal run of characters satisfying `inRun` replaced by the one
      character `sep`; the other characters are copied. This is
      `re.sub('<class>+', sep, s)`. */
  function Squeeze(s: string, inRun: char -> bool, sep: char): (r: string)
    ensures |r| <= |s|
    ensures |r| == 0 <==> |s| == 0
    ensures |s| > 0 && !inRun(s[0]) ==> r[0] == s[0]
    ensures |s| > 0 && inRun(s[0]) ==> r[0] == sep
    decreases |s|
  {
    if |s| == 0 then ""
    else if inRun(s[0]) then [sep] + Squeeze(DropRun(s[1..], inRun), inRun, sep)
    else [s[0]] + Squeeze(s[1..], inRun, sep)
  }

  /** The shape of a string `Squeeze` produces: every run-class character is
      the separator, and no two run-class characters are adjacent. */
  predicate Squeezed(s: string, inRun: char -> bool, sep: char) {
    && (forall i :: 0 <= i < |s| && inRun(s[i]) ==> s[i] == sep)
    && (forall i :: 0 < i < |s| && inRun(s[i]) ==> !inRun(s[i - 1]))
  }

  lemma {:induction false} SqueezeIsSqueezed(s: string, inRun: char -> bool, sep: char)
    ensures Squeezed(Squeeze(s, inRun, sep), inRun, sep)
    decreases |s|
  {
    if |s| == 0 {
    } else if inRun(s[0]) {
      var t := DropRun(s[1..], inRun);
      SqueezeIsSqueezed(t, inRun, sep);
      var r := Squeeze(s, inRun, sep);
      assert r == [sep] + Squeeze(t, inRun, sep);
      forall i | 0 < i < |r| ensures inRun(r[i]) ==> !inRun(r[i - 1]) {
        assert r[i] == Squeeze(t, inRun, sep)[i - 1];
      }
    } else {
      SqueezeIsSqueezed(s[1..], inRun, sep);
      var r := Squeeze(s, inRun, sep);
      assert r == [s[0]] + Squeeze(s[1..], inRun, sep);
      forall i | 0 < i < |r| ensures inRun(r[i]) ==> !inRun(r[i - 1]) {
        assert r[i] == Squeeze(s[1..], inRun, sep)[i - 1];
      }
    }
  }

  /** A string already in squeezed shape is left unchanged, so `Squeeze` is
      idempotent. */
  lemma {:induction false} SqueezeFixpoint(s: string, inRun: char -> bool, sep: char)
    requires Squeezed(s, inRun, sep)
    ensures Squeeze(s, inRun, sep) == s
    decreases |s|
  {
    if |s| > 0 {
      assert Squeezed(s[1..], inRun, sep) by {
        forall i | 0 < i < |s[1..]| && inRun(s[1..][i]) ensures !inRun(s[1..][i - 1]) {
          assert s[1..][i] == s[i + 1];
        }
      }
      SqueezeFixpoint(s[1..], inRun, sep);
      if inRun(s[0]) {
        assert |s| > 1 ==> !inRun(s[1]);
        assert DropRun(s[1..], inRun) == s[1..];
      }
    }
  }

  lemma SqueezeIdempotent(s: string, inRun: char -> bool, sep: char)
    ensures Squeeze(Squeeze(s, inRun, sep), inRun, sep) == Squeeze(s, inRun, sep)
  {
    SqueezeIsSqueezed(s, inRun, sep);
    SqueezeFixpoint(Squeeze(s, inRun, sep), inRun, sep);
  }

  /** A prefix free of run-class characters is copied unchanged. */
  lemma {:induction false} SqueezeCopiesPrefix(u: string, w: string, inRun: char -> bool, sep: char)
    requires forall k :: 0 <= k < |u| ==> !inRun(u[k])
    ensures Squeeze(u + w, inRun, sep) == u + Squeeze(w, inRun, sep)
    decreases |u|
  {
    if |u| > 0 {
      assert (u + w)[1..] == u[1..] + w;
      SqueezeCopiesPrefix(u[1..], w, inRun, sep);
    } else {
      assert u + w == w;
    }
  }

  /** The run length of a run followed by a character outside the class. */
  lemma RunLengthOfRun(v: string, t: string, inRun: char -> bool)
    requires forall k :: 0 <= k < |v| ==> inRun(v[k])
    requires |t| > 0 ==> !inRun(t[0])
    ensures RunLength(v + t, inRun) == |v|
  {
    assert forall k :: 0 <= k < |v| ==> inRun((v + t)[k]);
    assert |t| > 0 ==> !inRun((v + t)[|v|]);
  }

  /** A whole run at the front becomes one separator. */
  lemma SqueezeRunHead(v: string, t: string, inRun: char -> bool, sep: char)
    requires |v| > 0 && forall k :: 0 <= k < |v| ==> inRun(v[k])
    requires |t| > 0 ==> !inRun(t[0])
    ensures Squeeze(v + t, inRun, sep) == [sep] + Squeeze(t, inRun, sep)
  {
    var w := (v + t)[1..];
    assert w == v[1..] + t;
    RunLengthOfRun(v[1..], t, inRun);
    assert DropRun(w, inRun) == (v[1..] + t)[|v| - 1..] == t;
  }

  /** How `Squeeze` treats one run: a prefix free of run-class characters is
      copied, the run that follows becomes one separator, and squeezing goes
      on after the run. Every string splits this way, so this equation and
      `SqueezeFixpoint` pin `Squeeze` down completely. */
  lemma SqueezeRun(u: string, v: string, t: string, inRun: char -> bool, sep: char)
    requires forall k :: 0 <= k < |u| ==> !inRun(u[k])
    requires |v| > 0 && forall k :: 0 <= k < |v| ==> inRun(v[k])
    requires |t| > 0 ==> !inRun(t[0])
    ensures Squeeze(u + (v + t), inRun, sep) == u + ([sep] + Squeeze(t, inRun, sep))
  {
    SqueezeCopiesPrefix(u, v + t, inRun, sep);
    SqueezeRunHead(v, t, inRun, sep);
  }

  /** Appending text after a character outside the run class does not move
      the end of the leading run. */
  lemma RunLengthAppend(s: string, y: string, inRun: char -> bool)
    requires RunLength(s, inRun) < |s|
    ensures RunLength(s + y, inRun) == RunLength(s, inRun)
  {
    var n := RunLength(s, inRun);
    RunLengthOfRun(s[..n], s[n..] + y, inRun);
    assert s[..n] + (s[n..] + y) == s + y;
  }

  /** Squeezing distributes over a cut just after a character outside the
      run class: no run straddles the cut. */
  lemma {:induction false} SqueezeAppend(x: string, y: string, inRun: char -> bool, sep: char)
    requires |x| > 0 ==> !inRun(x[|x| - 1])
    ensures Squeeze(x + y, inRun, sep) == Squeeze(x, inRun, sep) + Squeeze(y, inRun, sep)
    decreases |x|
  {
    if |x| == 0 {
      assert x + y == y;
    } else if inRun(x[0]) {
      var w := x[1..];
      assert !inRun(w[|w| - 1]);
      var n := RunLength(w, inRun);
      assert (x + y)[1..] == w + y;
      RunLengthAppend(w, y, inRun);
      assert DropRun(w + y, inRun) == w[n..] + y;
      SqueezeAppend(w[n..], y, inRun, sep);
    } else {
      assert (x + y)[1..] == x[1..] + y;
      SqueezeAppend(x[1..], y, inRun, sep);
    }
  }

  /** A run between two characters outside the class becomes one
      separator, and the two sides are squeezed on their own. */
  lemma SqueezeJoin(a: string, v: string, b: string, inRun: char -> bool, sep: char)
    requires |a| > 0 && !inRun(a[|a| - 1])
    requires |v| > 0 && forall k :: 0 <= k < |v| ==> inRun(v[k])
    requires |b| > 0 ==> !inRun(b[0])
    ensures Squeeze(a + v + b, inRun, sep) == Squeeze(a, inRun, sep) + [sep] + Squeeze(b, inRun, sep)
  {
    assert a + v + b == a + (v + b);
    SqueezeAppend(a, v + b, inRun, sep);
    SqueezeRunHead(v, b, inRun, sep);
  }

  /** A last character outside the run class survives as the last character. */
  lemma {:induction false} SqueezeKeepsLast(s: string, inRun: char -> bool, sep: char)
    requires |s| > 0 && !inRun(s[|s| - 1])
    ensures var r := Squeeze(s, inRun, sep); |r| > 0 && r[|r| - 1] == s[|s| - 1]
    decreases |s|
  {
    if |s| > 1 {
      if inRun(s[0]) {
        var w := s[1..];
        var n := RunLength(w, inRun);
        assert n < |w| by {
          assert !inRun(w[|w| - 1]);
        }
        var t := DropRun(w, inRun);
        assert t[|t| - 1] == s[|s| - 1];
        SqueezeKeepsLast(t, inRun, sep);
      } else {
        SqueezeKeepsLast(s[1..], inRun, sep);
      }
    }
  }

  /** The characters of `s` outside the run class, in order. */
  function Without(s: string, inRun: char -> bool): (r: string)
    ensures |r| <= |s|
    decreases |s|
  {
    if |s| == 0 then ""
    else (if inRun(s[0]) then "" else [s[0]]) + Without(s[1..], inRun)
  }

  lemma {:induction false} WithoutConcat(a: string, b: string, inRun: char -> bool)
    ensures Without(a + b, inRun) == Without(a, inRun) + Without(b, inRun)
    decreases |a|
  {
    if |a| == 0 {
      assert a + b == b;
    } else {
      assert (a + b)[1..] == a[1..] + b;
      WithoutConcat(a[1..], b, inRun);
    }
  }

  lemma {:induction false} WithoutRun(s: string, inRun: char -> bool)
    requires forall k :: 0 <= k < |s| ==> inRun(s[k])
    ensures Without(s, inRun) == ""
    decreases |s|
  {
    if |s| > 0 {
      WithoutRun(s[1..], inRun);
    }
  }

  /** When the separator is itself in the run class, squeezing keeps every
      other character, in order. */
  lemma {:induction false} SqueezeKeepsOthers(s: string, inRun: char -> bool, sep: char)
    requires inRun(sep)
    ensures Without(Squeeze(s, inRun, sep), inRun) == Without(s, inRun)
    decreases |s|
  {
    if |s| > 0 {
      var w := s[1..];
      if inRun(s[0]) {
        var n := RunLength(w, inRun);
        assert w == w[..n] + w[n..];
        WithoutConcat(w[..n], w[n..], inRun);
        WithoutRun(w[..n], inRun);
        SqueezeKeepsOthers(w[n..], inRun, sep);
        assert Squeeze(s, inRun, sep) == [sep] + Squeeze(w[n..], inRun, sep);
        assert ([sep] + Squeeze(w[n..], inRun, sep))[1..] == Squeeze(w[n..], inRun, sep);
      } else {
        SqueezeKeepsOthers(w, inRun, sep);
        assert Squeeze(s, inRun, sep) == [s[0]] + Squeeze(w, inRun, sep);
        assert ([s[0]] + Squeeze(w, inRun, sep))[1..] == Squeeze(w, inRun, sep);
      }
    }
  }

  /** Dropping leading run-class characters keeps the other characters. */
  lemma {:induction false} WithoutDropPrefix(s: string, i: nat, inRun: char -> bool)
    requires i <= |s|
    requires forall k :: 0 <= k < i ==> inRun(s[k])
    ensures Without(s[i..], inRun) == Without(s, inRun)
    decreases i
  {
    if i > 0 {
      var w := s[1..];
      assert w[i - 1..] == s[i..];
      WithoutDropPrefix(w, i - 1, inRun);
    }
  }

  /** Dropping trailing run-class characters keeps the other characters. */
  lemma WithoutDropSuffix(s: string, j: nat, inRun: char -> bool)
    requires j <= |s|
    requires forall k :: j <= k < |s| ==> inRun(s[k])
    ensures Without(s[..j], inRun) == Without(s, inRun)
  {
    var a, b := s[..j], s[j..];
    assert s == a + b;
    WithoutConcat(a, b, inRun);
    WithoutRun(b, inRun);
    assert Without(a, inRun) + "" == Without(a, inRun);
  }

  /** Removing run-class characters from both ends of a slice keeps its
      other characters. */
  lemma WithoutPadding(s: string, i: nat, j: nat, inRun: char -> bool)
    requires i <= j <= |s|
    requires forall k :: 0 <= k < i ==> inRun(s[k])
    requires forall k :: j <= k < |s| ==> inRun(s[k])
    ensures Without(s[i..j], inRun) == Without(s, inRun)
  {
    var m := s[..j];
    WithoutDropSuffix(s, j, inRun);
    assert forall k :: 0 <= k < i ==> inRun(m[k]);
    WithoutDropPrefix(m, i, inRun);
    assert m[i..] == s[i..j];
  }

  /** Stripping keeps every non-whitespace character, in order. */
  lemma StripKeepsOthers(s: string)
    ensures Without(Strip(s), IsSpace) == Without(s, IsSpace)
  {
    var i, j := StripBounds(s);
    WithoutPadding(s, i, j, IsSpace);
  }
}
