/** The string operations of the Go library that the source relies on. */
module Strings {
  /** strings.Split(s, "/"). */
  function Split(s: string): (r: seq<string>)
    ensures |r| >= 1
  {
    if s == "" then [""]
    else if s[0] == '/' then [""] + Split(s[1..])
    else var r := Split(s[1..]); [[s[0]] + r[0]] + r[1..]
  }

  /** strings.Join(r, "/"). */
  function Join(r: seq<string>): string {
    if r == [] then "" else if |r| == 1 then r[0] else r[0] + "/" + Join(r[1..])
  }

  lemma {:induction false} JoinSplit(s: string)
    ensures Join(Split(s)) == s
  {
    if s != "" {
      JoinSplit(s[1..]);
      var r := Split(s[1..]);
      assert s == [s[0]] + s[1..];
      if s[0] == '/' {
        assert Split(s)[1..] == r;
        assert "" + "/" + Join(r) == s;
      } else {
        var t := [[s[0]] + r[0]] + r[1..];
        assert t[1..] == r[1..];
        if |r| == 1 {
          assert Join(t) == [s[0]] + r[0];
        } else {
          assert Join(t) == [s[0]] + r[0] + "/" + Join(r[1..]);
          assert Join(t) == [s[0]] + (r[0] + "/" + Join(r[1..]));
        }
      }
    }
  }

  /** The parts are between the slashes: none has one, and there is one more part than slashes. */
  lemma {:induction false} SplitParts(s: string)
    ensures (forall i :: 0 <= i < |Split(s)| ==> '/' !in Split(s)[i]) && |Split(s)| == multiset(s)['/'] + 1
  {
    if s != "" {
      SplitParts(s[1..]);
      assert s == [s[0]] + s[1..];
    }
  }

  /** strings.Contains(s, ".."). */
  predicate HasDotDot(s: string) { exists i :: 0 <= i < |s| - 1 && s[i] == '.' && s[i + 1] == '.' }

  /** strings.ToLower on ASCII text. */
  function LowerChar(c: char): char { if 'A' <= c <= 'Z' then c + 32 as char else c }

  function Lower(s: string): (r: string)
    ensures |r| == |s|
  {
    seq(|s|, i requires 0 <= i < |s| => LowerChar(s[i]))
  }

  /** Two spellings of one letter, or the same character. */
  predicate SameLetter(c: char, d: char) {
    c == d || ('A' <= c <= 'Z' && d as int == c as int + 32) || ('A' <= d <= 'Z' && c as int == d as int + 32)
  }

  /** Strings fold alike exactly when they are spelled alike, letter by letter, whatever the case. */
  lemma FoldsAlike(a: string, b: string)
    ensures EqualFold(a, b) <==> |a| == |b| && forall i :: 0 <= i < |a| ==> SameLetter(a[i], b[i])
  {
    if EqualFold(a, b) {
      forall i | 0 <= i < |a| ensures SameLetter(a[i], b[i]) {
        assert LowerChar(a[i]) == Lower(a)[i] == Lower(b)[i] == LowerChar(b[i]);
      }
    }
    if |a| == |b| && forall i :: 0 <= i < |a| ==> SameLetter(a[i], b[i]) {
      assert Lower(a) == Lower(b);
    }
  }

  /** A lowered string has no capital letter and folds like the original. */
  lemma LowerLowers(s: string)
    ensures EqualFold(s, Lower(s)) && forall i :: 0 <= i < |s| ==> !('A' <= Lower(s)[i] <= 'Z')
  {
  }

  lemma LowerIdempotent(s: string)
    ensures Lower(Lower(s)) == Lower(s)
  {
  }

  /** strings.EqualFold on ASCII text. */
  predicate EqualFold(a: string, b: string) { Lower(a) == Lower(b) }

  /** strings.TrimPrefix(s, "0x"). */
  function Trim0x(s: string): string { if "0x" <= s then s[2..] else s }

  /** Go's `<` on strings. */
  predicate Less(a: string, b: string) {
    if b == "" then false
    else if a == "" then true
    else a[0] < b[0] || (a[0] == b[0] && Less(a[1..], b[1..]))
  }

  /** The order is total and strict. */
  lemma {:induction false} LessTotal(a: string, b: string)
    ensures !(Less(a, b) && Less(b, a))
    ensures Less(a, b) || Less(b, a) || a == b
    ensures Less(a, b) ==> a != b
  {
    if a != "" && b != "" {
      LessTotal(a[1..], b[1..]);
      assert a == [a[0]] + a[1..] && b == [b[0]] + b[1..];
    }
  }

  /** A separator that does not occur in the left parts determines the split. */
  lemma SplitAt(a: string, b: string, c: string, d: string, sep: char)
    requires sep !in a && sep !in c && a + [sep] + b == c + [sep] + d
    ensures a == c && b == d
  {
    var s, t := a + [sep] + b, c + [sep] + d;
    assert s[|a|] == sep && t[|c|] == sep;
    assert a == s[..|a|] && c == t[..|c|] && b == s[|a| + 1..] && d == t[|c| + 1..];
  }
}
