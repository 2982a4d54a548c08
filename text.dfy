/**
 * Character classes and the string operations pydocsearch relies on:
 * `\w` (word characters), `str.lower()`, splitting on single separator
 * characters (`str.split('#')`, `re.split(r'\W', ...)`) and `'.'.join(...)`.
 * Only the ASCII subset of Python's Unicode-aware `\w` and `lower()` is modelled.
 */
module Text {

  /** A character matched by the regular expression `\w` (ASCII letters, digits, underscore). */
  predicate IsWordChar(c: char) {
    ('a' <= c <= 'z') || ('A' <= c <= 'Z') || ('0' <= c <= '9') || c == '_'
  }

  /** A character matched by `\W`. */
  predicate IsNonWordChar(c: char) {
    !IsWordChar(c)
  }

  /** The separator of `link.split('#')`. */
  predicate IsHash(c: char) {
    c == '#'
  }

  function LowerChar(c: char): char {
    if 'A' <= c <= 'Z' then (c as int + 32) as char else c
  }

  /** `str.lower()` on ASCII letters; every other character is kept. */
  function Lower(s: string): (r: string)
    ensures |r| == |s|
  {
    seq(|s|, i requires 0 <= i < |s| => LowerChar(s[i]))
  }

  predicate IsLower(s: string) {
    forall i :: 0 <= i < |s| ==> !('A' <= s[i] <= 'Z')
  }

  /** Lower-casing yields a lower-case string of the same length, and is idempotent. */
  lemma LowerIsLower(s: string)
    ensures |Lower(s)| == |s| && IsLower(Lower(s))
    ensures Lower(Lower(s)) == Lower(s)
    ensures IsLower(s) ==> Lower(s) == s
  {
  }

  /** `s` holds no separator character. */
  predicate Free(s: string, isSep: char -> bool) {
    forall i :: 0 <= i < |s| ==> !isSep(s[i])
  }

  /** No chunk of `parts` holds a separator character. */
  predicate AllFree(parts: seq<string>, isSep: char -> bool) {
    forall j :: 0 <= j < |parts| ==> Free(parts[j], isSep)
  }

  /** Number of positions of `s` holding a separator. */
  function Count(s: string, isSep: char -> bool): nat
    decreases |s|
  {
    if s == [] then 0 else (if isSep(s[0]) then 1 else 0) + Count(s[1..], isSep)
  }

  /**
   * The chunks between separators, as `str.split(c)` / `re.split` with a
   * one-character pattern: a leading, trailing or doubled separator yields an
   * empty chunk, and the empty string yields one empty chunk.
   */
  function Split(s: string, isSep: char -> bool): (parts: seq<string>)
    ensures |parts| == Count(s, isSep) + 1
    decreases |s|
  {
    if s == [] then [""]
    else
      var rest := Split(s[1..], isSep);
      if isSep(s[0]) then [""] + rest
      else [[s[0]] + rest[0]] + rest[1..]
  }

  /** No chunk of a split holds a separator. */
  lemma {:induction false} SplitChunksFree(s: string, isSep: char -> bool)
    ensures AllFree(Split(s, isSep), isSep)
    decreases |s|
  {
    if s != [] {
      var rest := Split(s[1..], isSep);
      SplitChunksFree(s[1..], isSep);
      assert Free(rest[0], isSep);
      var parts := Split(s, isSep);
      if !isSep(s[0]) {
        assert forall j :: 1 <= j < |parts| ==> parts[j] == rest[j];
      } else {
        assert forall j :: 1 <= j < |parts| ==> parts[j] == rest[j - 1];
      }
    }
  }

  /** `sep.join(parts)`. */
  function Join(parts: seq<string>, sep: char): (r: string)
    ensures |parts| > 0 ==> parts[0] <= r
    decreases |parts|
  {
    if |parts| == 0 then ""
    else if |parts| == 1 then parts[0]
    else parts[0] + [sep] + Join(parts[1..], sep)
  }

  /** `s` with every separator character replaced by `k`. */
  function Replace(s: string, isSep: char -> bool, k: char): (r: string)
    ensures |r| == |s|
  {
    seq(|s|, i requires 0 <= i < |s| => if isSep(s[i]) then k else s[i])
  }

  lemma {:induction false} JoinConsHead(c: char, parts: seq<string>, sep: char)
    requires |parts| >= 1
    ensures Join([[c] + parts[0]] + parts[1..], sep) == [c] + Join(parts, sep)
  {
    var q := [[c] + parts[0]] + parts[1..];
    if |parts| > 1 {
      assert q[1..] == parts[1..];
    }
  }

  /** Joining the chunks of a split by `k` is the same as replacing each separator by `k`. */
  lemma {:induction false} JoinSplit(s: string, isSep: char -> bool, k: char)
    ensures Join(Split(s, isSep), k) == Replace(s, isSep, k)
    decreases |s|
  {
    if s != [] {
      var rest := Split(s[1..], isSep);
      JoinSplit(s[1..], isSep, k);
      if isSep(s[0]) {
        assert ([""] + rest)[1..] == rest;
      } else {
        JoinConsHead(s[0], rest, k);
      }
      assert Replace(s, isSep, k) == [Replace(s, isSep, k)[0]] + Replace(s[1..], isSep, k);
    }
  }

  /** Round trip for a single separator character: `k.join(s.split(k)) == s`. */
  lemma SplitRoundTrip(s: string, isSep: char -> bool, k: char)
    requires forall i :: 0 <= i < |s| && isSep(s[i]) ==> s[i] == k
    ensures Join(Split(s, isSep), k) == s
  {
    JoinSplit(s, isSep, k);
  }

  /** A chunk without separators is split off intact at the front. */
  lemma {:induction false} SplitFreePrefix(x: string, rest: string, isSep: char -> bool)
    requires Free(x, isSep)
    ensures Split(x + rest, isSep)
         == [x + Split(rest, isSep)[0]] + Split(rest, isSep)[1..]
    decreases |x|
  {
    var S := Split(rest, isSep);
    if x != [] {
      var y := x[1..];
      assert (x + rest)[1..] == y + rest;
      assert (x + rest)[0] == x[0];
      SplitFreePrefix(y, rest, isSep);
      var R := Split(y + rest, isSep);
      assert R[0] == y + S[0] && R[1..] == S[1..];
      assert [x[0]] + (y + S[0]) == x + S[0];
    } else {
      assert x + rest == rest;
      assert x + S[0] == S[0];
      assert [S[0]] + S[1..] == S;
    }
  }

  /** Round trip the other way: splitting chunks joined by a separator gives the chunks back. */
  lemma {:induction false} SplitJoin(parts: seq<string>, isSep: char -> bool, k: char)
    requires |parts| >= 1 && isSep(k)
    requires AllFree(parts, isSep)
    ensures Split(Join(parts, k), isSep) == parts
    decreases |parts|
  {
    assert Free(parts[0], isSep);
    if |parts| == 1 {
      SplitFreePrefix(parts[0], "", isSep);
      assert parts[0] + "" == parts[0];
    } else {
      var tail := Join(parts[1..], k);
      assert forall j :: 0 <= j < |parts| - 1 ==> parts[1..][j] == parts[j + 1];
      SplitJoin(parts[1..], isSep, k);
      assert parts[0] + [k] + tail == parts[0] + ([k] + tail);
      SplitFreePrefix(parts[0], [k] + tail, isSep);
      assert ([k] + tail)[1..] == tail;
      assert Split([k] + tail, isSep) == [""] + parts[1..];
      assert parts[0] + "" == parts[0];
      assert parts == [parts[0]] + parts[1..];
    }
  }

  /** Two separator-free words around one separator split back into the two words. */
  lemma SplitTwo(a: string, b: string, isSep: char -> bool, k: char)
    requires Free(a, isSep) && Free(b, isSep) && isSep(k)
    ensures Split(a + [k] + b, isSep) == [a, b]
  {
    var parts := [a, b];
    assert Join(parts, k) == a + [k] + b by {
      assert parts[1..] == [b];
    }
    assert AllFree(parts, isSep);
    SplitJoin(parts, isSep, k);
  }
}
