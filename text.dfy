/**
 * The string operations the widget relies on: ASCII case mapping
 * (`toLowerCase`, `toUpperCase`), substring search (`includes`),
 * global character replacement (`replace(/_/g, ' ')`), `split` on one
 * character and `join` with a separator.
 */
module Text {

  function LowerChar(c: char): char {
    if 'A' <= c <= 'Z' then (c as int + 32) as char else c
  }

  function UpperChar(c: char): char {
    if 'a' <= c <= 'z' then (c as int - 32) as char else c
  }

  function ToLower(s: string): string {
    seq(|s|, i requires 0 <= i < |s| => LowerChar(s[i]))
  }

  function ToUpper(s: string): string {
    seq(|s|, i requires 0 <= i < |s| => UpperChar(s[i]))
  }

  /** `s.includes(t)`: t occurs in s as a contiguous block. */
  predicate Contains(s: string, t: string) {
    exists i :: 0 <= i <= |s| - |t| && OccursAt(s, t, i)
  }

  /** t occurs in s starting at position i. */
  predicate OccursAt(s: string, t: string, i: int) {
    0 <= i <= |s| - |t| && s[i..i + |t|] == t
  }

  /** `s.replace(/from/g, to)` for a single character `from` replaced by a single character. */
  function ReplaceChar(s: string, from: char, to: char): string {
    seq(|s|, i requires 0 <= i < |s| => if s[i] == from then to else s[i])
  }

  /** `s.split(c)`: the maximal c-free pieces between occurrences of c; never empty. */
  function Split(s: string, c: char): (parts: seq<string>)
    ensures |parts| >= 1
    ensures forall k :: 0 <= k < |parts| ==> c !in parts[k]
    ensures c !in s ==> parts == [s]
    ensures |parts| == 1 <==> c !in s
  {
    if s == [] then [""]
    else
      var rest := Split(s[1..], c);
      assert s == [s[0]] + s[1..];
      if s[0] == c then [""] + rest
      else [[s[0]] + rest[0]] + rest[1..]
  }

  /** `parts.join(sep)`. */
  function Join(parts: seq<string>, sep: string): string {
    if parts == [] then ""
    else if |parts| == 1 then parts[0]
    else parts[0] + sep + Join(parts[1..], sep)
  }

  /** Every occurrence of c in s replaced by the string sep. */
  function ReplaceWith(s: string, c: char, sep: string): string {
    if s == [] then ""
    else (if s[0] == c then sep else [s[0]]) + ReplaceWith(s[1..], c, sep)
  }

  /** The last element of a non-empty sequence: `Array.prototype.pop`'s value. */
  function Last<T>(s: seq<T>): T
    requires |s| > 0
  {
    s[|s| - 1]
  }

  lemma ContainsEmpty(s: string)
    ensures Contains(s, "")
  {
    assert OccursAt(s, "", 0);
  }

  lemma ContainsInfix(a: string, t: string, b: string)
    ensures Contains(a + t + b, t)
  {
    assert OccursAt(a + t + b, t, |a|);
  }

  /** What s contains, any extension of s contains too. */
  lemma ContainsExtended(s: string, suffix: string, t: string)
    requires Contains(s, t)
    ensures Contains(s + suffix, t)
  {
    var i :| 0 <= i <= |s| - |t| && OccursAt(s, t, i);
    assert (s + suffix)[i..i + |t|] == t;
    assert OccursAt(s + suffix, t, i);
  }

  lemma ToLowerAppend(a: string, b: string)
    ensures ToLower(a + b) == ToLower(a) + ToLower(b)
  {
  }

  lemma ToLowerSlice(s: string, i: int, j: int)
    requires 0 <= i <= j <= |s|
    ensures ToLower(s[i..j]) == ToLower(s)[i..j]
  {
  }

  /** Prefixing the first piece of a split with one non-separator character. */
  lemma JoinConsFirst(x: char, parts: seq<string>, sep: string)
    requires |parts| >= 1
    ensures Join([[x] + parts[0]] + parts[1..], sep) == [x] + Join(parts, sep)
  {
    var ps := [[x] + parts[0]] + parts[1..];
    if |parts| > 1 {
      assert ps[1..] == parts[1..];
    }
  }

  /** Splitting on c and joining with sep replaces every c by sep. */
  lemma {:induction false} JoinSplit(s: string, c: char, sep: string)
    ensures Join(Split(s, c), sep) == ReplaceWith(s, c, sep)
  {
    if s != [] {
      var rest := Split(s[1..], c);
      JoinSplit(s[1..], c, sep);
      assert ReplaceWith(s, c, sep) == (if s[0] == c then sep else [s[0]]) + Join(rest, sep);
      if s[0] == c {
        var parts := [""] + rest;
        assert parts[0] == "" && parts[1..] == rest;
        assert Join(parts, sep) == "" + sep + Join(rest, sep);
        assert "" + sep + Join(rest, sep) == sep + Join(rest, sep);
      } else {
        JoinConsFirst(s[0], rest, sep);
      }
    }
  }

  /**
   * The last piece of a split is the longest c-free suffix: it is a suffix
   * of s, holds no c, and is either all of s or preceded by a c.
   */
  lemma {:induction false} LastPieceIsSuffix(s: string, c: char)
    ensures var last := Last(Split(s, c));
      && |last| <= |s|
      && s[|s| - |last|..] == last
      && c !in last
      && (|last| == |s| || s[|s| - |last| - 1] == c)
  {
    if s != [] {
      var tail := s[1..];
      var rest := Split(tail, c);
      LastPieceIsSuffix(tail, c);
      var last := Last(rest);
      LastPieceStep(s, c);
      if s[0] == c || |rest| > 1 {
        if |rest| > 1 {
          assert |last| == |tail| ==> last == tail;
          assert c in tail && c !in last;
        }
        TailSuffix(s, |last|);
      }
    }
  }

  /** One step of the split's recursion: the last piece is the tail's, or all of s when the tail has no c. */
  lemma LastPieceStep(s: string, c: char)
    requires s != []
    ensures var rest := Split(s[1..], c);
      Last(Split(s, c)) == (if s[0] == c || |rest| > 1 then Last(rest) else s)
  {
    var rest := Split(s[1..], c);
    var parts := Split(s, c);
    if s[0] == c {
      assert parts == [""] + rest;
      assert parts[|parts| - 1] == rest[|rest| - 1];
    } else if |rest| > 1 {
      assert parts == [[s[0]] + rest[0]] + rest[1..];
      assert parts[|parts| - 1] == rest[|rest| - 1];
    } else {
      assert rest == [s[1..]];
      assert parts == [[s[0]] + s[1..]];
      assert [s[0]] + s[1..] == s;
    }
  }

  lemma TailSuffix(s: string, n: nat)
    requires s != [] && n <= |s| - 1
    ensures s[|s| - n..] == s[1..][|s| - 1 - n..]
    ensures n < |s| - 1 ==> s[|s| - n - 1] == s[1..][|s| - 1 - n - 1]
  {
  }
}
