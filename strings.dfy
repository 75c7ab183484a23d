/** Strings for the two scripts: `split` and `join` on a one-character separator, which both
    use, and JavaScript's `length`. A Dafny `char` is a Unicode scalar value, while a JavaScript
    string is a sequence of UTF-16 code units, so a character above U+FFFF (an emoji, say) is
    one `char` here but two units of `length` there. */
module Strings {

  datatype Option<T> = None | Some(value: T)

  /** The UTF-16 code units one character takes: two (a surrogate pair) above U+FFFF. */
  function Utf16Units(c: char): (n: nat)
    ensures n == 1 || n == 2
    ensures n == 2 <==> c as int > 0xFFFF
  {
    if c as int > 0xFFFF then 2 else 1
  }

  /** JavaScript's `s.length`: the number of UTF-16 code units. */
  function Utf16Length(s: string): (n: nat)
    ensures |s| <= n <= 2 * |s|
  {
    if s == [] then 0 else Utf16Units(s[0]) + Utf16Length(s[1..])
  }

  /** Text in the Basic Multilingual Plane has one code unit per character. */
  lemma {:induction false} Utf16LengthBmp(s: string)
    requires forall k :: 0 <= k < |s| ==> s[k] as int <= 0xFFFF
    ensures Utf16Length(s) == |s|
  {
    if s != [] {
      assert forall k :: 0 <= k < |s[1..]| ==> s[1..][k] == s[k + 1];
      Utf16LengthBmp(s[1..]);
    }
  }

  /** The length of a concatenation is the sum of the lengths. */
  lemma {:induction false} Utf16Append(a: string, b: string)
    ensures Utf16Length(a + b) == Utf16Length(a) + Utf16Length(b)
  {
    if a != [] {
      assert (a + b)[0] == a[0] && (a + b)[1..] == a[1..] + b;
      Utf16Append(a[1..], b);
    } else {
      assert a + b == b;
    }
  }

  /** Index of the first occurrence of `c` in `s`. */
  function FirstIndex(s: string, c: char): (i: nat)
    requires c in s
    ensures i < |s| && s[i] == c && c !in s[..i]
  {
    if s[0] == c then 0
    else
      var k := FirstIndex(s[1..], c);
      assert s[..k + 1] == [s[0]] + s[1..][..k];
      k + 1
  }

  /** `s.split(sep)`: the maximal separator-free pieces of `s`, in order. An empty string
      gives one empty piece, a trailing separator a trailing empty piece. */
  function Split(s: string, sep: char): (parts: seq<string>)
    ensures |parts| >= 1
    ensures forall k :: 0 <= k < |parts| ==> sep !in parts[k]
    decreases |s|
  {
    if sep !in s then [s]
    else
      var i := FirstIndex(s, sep);
      [s[..i]] + Split(s[i + 1..], sep)
  }

  /** `parts.join(sep)`. */
  function Join(parts: seq<string>, sep: char): string
  {
    if parts == [] then ""
    else if |parts| == 1 then parts[0]
    else parts[0] + [sep] + Join(parts[1..], sep)
  }

  /** Joining the pieces again gives back the string that was split. */
  lemma {:induction false} JoinSplit(s: string, sep: char)
    ensures Join(Split(s, sep), sep) == s
    decreases |s|
  {
    if sep in s {
      var i := FirstIndex(s, sep);
      var first, rest := s[..i], s[i + 1..];
      var parts := Split(rest, sep);
      SplitAtFirst(s, sep);
      JoinCons(first, parts, sep);
      JoinSplit(rest, sep);
      assert s == first + [sep] + rest;
    }
  }

  /** A string with a separator splits at its first separator. */
  lemma SplitAtFirst(s: string, sep: char)
    requires sep in s
    ensures var i := FirstIndex(s, sep); Split(s, sep) == [s[..i]] + Split(s[i + 1..], sep)
  {
  }

  /** Joining a piece in front of at least one more puts a separator between them. */
  lemma JoinCons(first: string, parts: seq<string>, sep: char)
    requires |parts| >= 1
    ensures Join([first] + parts, sep) == first + [sep] + Join(parts, sep)
  {
    var all := [first] + parts;
    assert all[0] == first && all[1..] == parts;
  }

  /** A separator following separator-free text closes the first piece. */
  lemma SplitAfter(a: string, b: string, sep: char)
    requires sep !in a
    ensures Split(a + [sep] + b, sep) == [a] + Split(b, sep)
  {
    var s := a + [sep] + b;
    assert s[|a|] == sep;
    var i := FirstIndex(s, sep);
    assert s[..|a|] == a;
    assert s[..i] == a;
    assert s[i + 1..] == b;
  }

  /** Splitting is a homomorphism across a separator: pieces never straddle one. */
  lemma {:induction false} SplitConcat(a: string, b: string, sep: char)
    ensures Split(a + [sep] + b, sep) == Split(a, sep) + Split(b, sep)
    decreases |a|
  {
    if sep !in a {
      SplitAfter(a, b, sep);
    } else {
      var i := FirstIndex(a, sep);
      var a1, a2 := a[..i], a[i + 1..];
      assert a == a1 + [sep] + a2;
      calc {
        Split(a + [sep] + b, sep);
        { assert a + [sep] + b == a1 + [sep] + (a2 + [sep] + b); }
        Split(a1 + [sep] + (a2 + [sep] + b), sep);
        { SplitAfter(a1, a2 + [sep] + b, sep); }
        [a1] + Split(a2 + [sep] + b, sep);
        { SplitConcat(a2, b, sep); }
        [a1] + (Split(a2, sep) + Split(b, sep));
        { SplitAfter(a1, a2, sep); }
        Split(a, sep) + Split(b, sep);
      }
    }
  }

  /** Splitting a join of separator-free pieces gives back the pieces. */
  lemma {:induction false} SplitJoin(parts: seq<string>, sep: char)
    requires |parts| >= 1
    requires forall k :: 0 <= k < |parts| ==> sep !in parts[k]
    ensures Split(Join(parts, sep), sep) == parts
  {
    if |parts| > 1 {
      var tail := parts[1..];
      assert forall k :: 0 <= k < |tail| ==> tail[k] == parts[k + 1];
      assert [parts[0]] + tail == parts;
      JoinCons(parts[0], tail, sep);
      SplitJoin(tail, sep);
      SplitAfter(parts[0], Join(tail, sep), sep);
    }
  }
}
