/** String helpers with the meaning Go's `strings` package gives them on
    ASCII text: lower-casing, suffix test, splitting on a separator and
    character replacement. */
module Text {

  /** ASCII lower-casing of one character. */
  function LowerChar(c: char): char {
    if 'A' <= c <= 'Z' then (c as int + 32) as char else c
  }

  /** `strings.ToLower` restricted to ASCII: every character is lowered,
      the length is kept. */
  function ToLower(s: string): string {
    seq(|s|, i requires 0 <= i < |s| => LowerChar(s[i]))
  }

  predicate IsLower(s: string) {
    forall i :: 0 <= i < |s| ==> !('A' <= s[i] <= 'Z')
  }

  lemma ToLowerIsLower(s: string)
    ensures IsLower(ToLower(s))
    ensures |ToLower(s)| == |s|
    ensures IsLower(s) <==> ToLower(s) == s
  {
    if IsLower(s) {
      assert forall i :: 0 <= i < |s| ==> ToLower(s)[i] == s[i];
    }
    if ToLower(s) == s {
      forall i | 0 <= i < |s|
        ensures !('A' <= s[i] <= 'Z')
      {
        assert ToLower(s)[i] == LowerChar(s[i]);
      }
    }
  }

  lemma IsLowerAppend(a: string, b: string)
    ensures IsLower(a + b) <==> IsLower(a) && IsLower(b)
  {
    if IsLower(a + b) {
      assert forall i :: 0 <= i < |b| ==> b[i] == (a + b)[|a| + i];
      assert forall i :: 0 <= i < |a| ==> a[i] == (a + b)[i];
    }
    if IsLower(a) && IsLower(b) {
      forall i | 0 <= i < |a + b| ensures !('A' <= (a + b)[i] <= 'Z') {
        if i >= |a| { assert (a + b)[i] == b[i - |a|]; }
      }
    }
  }

  /** Lower-casing distributes over concatenation. */
  lemma ToLowerAppend(a: string, b: string)
    ensures ToLower(a + b) == ToLower(a) + ToLower(b)
  {
  }

  /** `strings.HasSuffix`. */
  predicate HasSuffix(s: string, suffix: string) {
    |suffix| <= |s| && s[|s| - |suffix|..] == suffix
  }

  /** `strings.Replace(s, old, new, -1)` for single characters. */
  function Replace(s: string, from: char, into: char): string {
    seq(|s|, i requires 0 <= i < |s| => if s[i] == from then into else s[i])
  }

  /** Replacing a character that does not occur in `s` by one that does
      not occur either is undone by the reverse replacement. */
  lemma ReplaceRoundTrip(s: string, from: char, into: char)
    requires into !in s
    ensures Replace(Replace(s, from, into), into, from) == s
    ensures from != into ==> from !in Replace(s, from, into)
  {
    var r := Replace(s, from, into);
    forall i | 0 <= i < |s|
      ensures Replace(r, into, from)[i] == s[i]
    {
      assert s[i] != into by { assert s[i] in s; }
    }
  }

  /** Replacement introduces no character other than `into`. */
  lemma ReplaceAbsent(s: string, from: char, into: char, c: char)
    requires c !in s && c != into
    ensures c !in Replace(s, from, into)
  {
    forall i | 0 <= i < |s| ensures Replace(s, from, into)[i] != c {
      assert s[i] in s;
    }
  }

  lemma ReplaceAppend(a: string, b: string, from: char, into: char)
    ensures Replace(a + b, from, into) == Replace(a, from, into) + Replace(b, from, into)
  {
  }

  /** The inverse of `Split`: the parts glued back together with `sep`
      between consecutive parts. */
  function Join(parts: seq<string>, sep: char): string
    requires |parts| >= 1
  {
    if |parts| == 1 then parts[0]
    else Join(parts[..|parts| - 1], sep) + [sep] + parts[|parts| - 1]
  }

  /** Re-joining separator-free parts with another separator is the same
      as replacing the separator in the joined text. */
  lemma {:induction false} ReplaceJoin(parts: seq<string>, from: char, into: char)
    requires |parts| >= 1
    requires forall k :: 0 <= k < |parts| ==> from !in parts[k]
    ensures Replace(Join(parts, from), from, into) == Join(parts, into)
    decreases |parts|
  {
    var last := parts[|parts| - 1];
    assert Replace(last, from, into) == last by {
      assert forall i :: 0 <= i < |last| ==> last[i] != from by {
        forall i | 0 <= i < |last| ensures last[i] != from { assert last[i] in last; }
      }
    }
    if |parts| > 1 {
      var init := parts[..|parts| - 1];
      ReplaceJoin(init, from, into);
      ReplaceAppend(Join(init, from) + [from], last, from, into);
      ReplaceAppend(Join(init, from), [from], from, into);
    }
  }

  /** `strings.Split(s, sep)` for a one-character separator: the maximal
      separator-free runs of `s`, in order; the empty string gives one
      empty part, and a trailing separator gives an empty last part. */
  function Split(s: string, sep: char): (parts: seq<string>)
    ensures |parts| >= 1
    ensures forall k :: 0 <= k < |parts| ==> sep !in parts[k]
    ensures Join(parts, sep) == s
  {
    if |s| == 0 then [""]
    else
      var init := Split(s[..|s| - 1], sep);
      var c := s[|s| - 1];
      if c == sep then init + [""]
      else
        var last := init[|init| - 1] + [c];
        var parts := init[..|init| - 1] + [last];
        assert parts[..|parts| - 1] == init[..|init| - 1];
        assert Join(parts, sep) == Join(init, sep) + [c] by {
          if |init| > 1 {
            assert Join(init, sep) == Join(init[..|init| - 1], sep) + [sep] + init[|init| - 1];
          }
        }
        assert s == s[..|s| - 1] + [c];
        parts
  }

  /** Appending a separator-free label after a separator appends one part. */
  lemma {:induction false} SplitAppendLabel(x: string, sep: char, w: string)
    requires sep !in w
    ensures Split(x + [sep] + w, sep) == Split(x, sep) + [w]
    decreases |w|
  {
    if |w| == 0 {
      assert x + [sep] + w == x + [sep];
      assert (x + [sep])[..|x + [sep]| - 1] == x;
    } else {
      var w' := w[..|w| - 1];
      var c := w[|w| - 1];
      assert sep !in w' by {
        forall i | 0 <= i < |w'| ensures w'[i] != sep { assert w'[i] == w[i]; }
      }
      assert c != sep by { assert c in w; }
      var s := x + [sep] + w;
      assert s[..|s| - 1] == x + [sep] + w';
      SplitAppendLabel(x, sep, w');
      var init := Split(x, sep) + [w'];
      assert init[..|init| - 1] == Split(x, sep);
      assert w' + [c] == w;
    }
  }

  /** A separator-free string splits into itself alone. */
  lemma {:induction false} SplitLabel(w: string, sep: char)
    requires sep !in w
    ensures Split(w, sep) == [w]
    decreases |w|
  {
    if |w| > 0 {
      var w' := w[..|w| - 1];
      assert sep !in w' by {
        forall i | 0 <= i < |w'| ensures w'[i] != sep { assert w'[i] == w[i]; }
      }
      assert w[|w| - 1] != sep by { assert w[|w| - 1] in w; }
      SplitLabel(w', sep);
      assert w' + [w[|w| - 1]] == w;
    }
  }

  /** `Split` inverts `Join` on separator-free parts, so the parts of a
      string are uniquely determined. */
  lemma {:induction false} SplitJoin(parts: seq<string>, sep: char)
    requires |parts| >= 1
    requires forall k :: 0 <= k < |parts| ==> sep !in parts[k]
    ensures Split(Join(parts, sep), sep) == parts
    decreases |parts|
  {
    if |parts| == 1 {
      SplitLabel(parts[0], sep);
    } else {
      var init := parts[..|parts| - 1];
      var last := parts[|parts| - 1];
      assert Join(parts, sep) == Join(init, sep) + [sep] + last;
      SplitJoin(init, sep);
      SplitAppendLabel(Join(init, sep), sep, last);
      assert init + [last] == parts;
    }
  }

  /** A string splits into at least two parts with an empty last part
      exactly when it ends with the separator; the part before the empty one
      is then the label right before that separator. */
  lemma EndsWithSeparator(s: string, sep: char)
    ensures (|Split(s, sep)| >= 2 && Split(s, sep)[|Split(s, sep)| - 1] == "")
            <==> (|s| > 0 && s[|s| - 1] == sep)
    ensures |s| > 0 && s[|s| - 1] == sep ==>
              Split(s, sep)[|Split(s, sep)| - 2] == Split(s[..|s| - 1], sep)[|Split(s[..|s| - 1], sep)| - 1]
  {
    if |s| > 0 && s[|s| - 1] != sep {
      var init := Split(s[..|s| - 1], sep);
      var parts := Split(s, sep);
      assert parts[|parts| - 1] == init[|init| - 1] + [s[|s| - 1]];
    }
  }
}
