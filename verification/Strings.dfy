/** Python's `str.split(sep)` and `sep.join(parts)` for a one-character separator,
    and `str.lower()` on the letters A to Z. */
module Strings {
  function Lower(s: string): string {
    seq(|s|, i requires 0 <= i < |s| => if 'A' <= s[i] <= 'Z' then s[i] - 'A' + 'a' else s[i])
  }

  /** The text is the word, in capitals or not. */
  ghost predicate Spells(s: string, word: string) {
    && |s| == |word|
    && forall i :: 0 <= i < |s| ==> s[i] == word[i] || ('a' <= word[i] <= 'z' && s[i] as int + 32 == word[i] as int)
  }

  lemma LowerSpells(s: string, word: string)
    requires forall i :: 0 <= i < |word| ==> !('A' <= word[i] <= 'Z')
    ensures Lower(s) == word <==> Spells(s, word)
  {
    var low := Lower(s);
    assert Spells(s, word) <==> |low| == |word| && forall i :: 0 <= i < |s| ==> low[i] == word[i];
  }

  lemma LowerTail(s: string, k: nat)
    requires k <= |s|
    ensures |Lower(s)| == |s| && Lower(s)[k..] == Lower(s[k..])
  {
  }

  function Split(s: string, sep: char): (parts: seq<string>)
    ensures |parts| >= 1
    ensures forall p :: p in parts ==> sep !in p
  {
    if s == [] then [""]
    else
      var rest := Split(s[1..], sep);
      if s[0] == sep then [""] + rest else [[s[0]] + rest[0]] + rest[1..]
  }

  function JoinWith(parts: seq<string>, glue: string): string {
    if parts == [] then ""
    else if |parts| == 1 then parts[0]
    else parts[0] + glue + JoinWith(parts[1..], glue)
  }

  function Join(parts: seq<string>, sep: char): string {
    JoinWith(parts, [sep])
  }

  /** One part is that part, and two lists of parts are joined by the glue. */
  lemma {:induction false} JoinParts(a: seq<string>, b: seq<string>, p: string, glue: string)
    requires a != [] && b != []
    ensures JoinWith([p], glue) == p
    ensures JoinWith(a + b, glue) == JoinWith(a, glue) + glue + JoinWith(b, glue)
  {
    if |a| == 1 {
      assert (a + b)[1..] == b;
    } else {
      JoinParts(a[1..], b, p, glue);
      var rest, tail := JoinWith(a[1..], glue), JoinWith(b, glue);
      assert (a + b)[1..] == a[1..] + b && (a + b)[0] == a[0];
      assert a[0] + glue + (rest + glue + tail) == (a[0] + glue + rest) + glue + tail;
    }
  }

  lemma {:induction false} SplitAppend(head: string, tail: string, sep: char)
    requires sep !in head
    ensures Split(head + [sep] + tail, sep) == [head] + Split(tail, sep)
  {
    var s := head + [sep] + tail;
    if head == [] {
      assert s[1..] == tail;
    } else {
      assert s[1..] == head[1..] + [sep] + tail;
      SplitAppend(head[1..], tail, sep);
      assert [s[0]] + head[1..] == head;
    }
  }

  lemma {:induction false} SplitWhole(s: string, sep: char)
    requires sep !in s
    ensures Split(s, sep) == [s]
  {
    if s == [] {
    } else {
      SplitWhole(s[1..], sep);
      assert [s[0]] + s[1..] == s;
    }
  }

  /** Splitting undoes joining exactly when no part contains the separator. */
  lemma {:induction false} SplitJoin(parts: seq<string>, sep: char)
    requires parts != []
    ensures Split(Join(parts, sep), sep) == parts <==> forall p :: p in parts ==> sep !in p
  {
    if forall p :: p in parts ==> sep !in p {
      if |parts| == 1 {
        SplitWhole(parts[0], sep);
      } else {
        SplitJoin(parts[1..], sep);
        SplitAppend(parts[0], Join(parts[1..], sep), sep);
      }
    }
  }

  /** Joining undoes splitting always. */
  lemma {:induction false} JoinSplit(s: string, sep: char)
    ensures Join(Split(s, sep), sep) == s
  {
    if s == [] {
    } else {
      JoinSplit(s[1..], sep);
      var rest := Split(s[1..], sep);
      if s[0] == sep {
        assert ([""] + rest)[1..] == rest;
      } else {
        var parts := [[s[0]] + rest[0]] + rest[1..];
        assert parts[1..] == rest[1..];
        assert |rest| > 1 ==> Join(parts, sep) == [s[0]] + rest[0] + [sep] + Join(rest[1..], sep);
      }
    }
  }

  /** `s.replace(mark, text)` for a character: what stands between the occurrences
      stays, the text takes their place. */
  function Replace(s: string, mark: char, text: string): string {
    if s == [] then ""
    else (if s[0] == mark then text else [s[0]]) + Replace(s[1..], mark, text)
  }

  /** Replacing is joining the parts between the occurrences with the text. */
  lemma {:induction false} ReplaceIsJoin(s: string, mark: char, text: string)
    ensures Replace(s, mark, text) == JoinWith(Split(s, mark), text)
  {
    if s == [] {
    } else {
      ReplaceIsJoin(s[1..], mark, text);
      var rest := Split(s[1..], mark);
      if s[0] == mark {
        assert ([""] + rest)[1..] == rest;
      } else {
        var parts := [[s[0]] + rest[0]] + rest[1..];
        assert parts[1..] == rest[1..];
        assert |rest| > 1 ==> JoinWith(parts, text) == [s[0]] + rest[0] + text + JoinWith(rest[1..], text);
      }
    }
  }

  /** A text without the character stays, and one with a single occurrence has the
      new text in its place. */
  lemma ReplaceOnce(a: string, mark: char, b: string, text: string)
    requires mark !in a && mark !in b
    ensures Replace(a, mark, text) == a
    ensures Replace(a + [mark] + b, mark, text) == a + text + b
  {
    ReplaceIsJoin(a, mark, text);
    SplitWhole(a, mark);
    ReplaceIsJoin(a + [mark] + b, mark, text);
    SplitAppend(a, b, mark);
    SplitWhole(b, mark);
    assert ([a] + [b])[1..] == [b];
  }
}
