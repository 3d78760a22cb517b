/**
 * String helpers the model needs: the case-insensitive comparison used by the
 * teardown protocol, the literal `replaceAll` applied to query text, and the
 * joining and splitting used to read back generated CQL.
 */
module Text {

  /** Upper-case folding of ASCII letters; every other character is its own upper case. */
  function ToUpper(c: char): char {
    if 'a' <= c <= 'z' then (c as int - 32) as char else c
  }

  /** Lower-case folding of ASCII letters; every other character is its own lower case. */
  function ToLower(c: char): char {
    if 'A' <= c <= 'Z' then (c as int + 32) as char else c
  }

  /** Two characters match ignoring case: equal, equal upper cases, or equal lower cases. */
  predicate CharEqualsIgnoreCase(a: char, b: char) {
    a == b || ToUpper(a) == ToUpper(b) || ToLower(ToUpper(a)) == ToLower(ToUpper(b))
  }

  /** `a.equalsIgnoreCase(b)`: same length and pairwise case-insensitive equal characters. */
  predicate EqualsIgnoreCase(a: string, b: string) {
    |a| == |b| && forall i :: 0 <= i < |a| ==> CharEqualsIgnoreCase(a[i], b[i])
  }

  /** A character with no case folds only onto itself. */
  lemma CaselessCharMatchesOnlyItself(a: char, b: char)
    requires ToUpper(b) == b && ToLower(b) == b && !('a' <= b <= 'z') && !('A' <= b <= 'Z')
    ensures CharEqualsIgnoreCase(a, b) <==> a == b
  {
  }

  /** The wildcard "*" matches, ignoring case, exactly the string "*". */
  lemma WildcardMatchesOnlyItself(p: string)
    ensures EqualsIgnoreCase(p, "*") <==> p == "*"
  {
    if EqualsIgnoreCase(p, "*") {
      CaselessCharMatchesOnlyItself(p[0], '*');
      assert p == [p[0]];
    }
  }

  /** Ignoring case is an equivalence on the strings it relates: reflexive and symmetric. */
  lemma EqualsIgnoreCaseReflexiveSymmetric(a: string, b: string)
    ensures EqualsIgnoreCase(a, a)
    ensures EqualsIgnoreCase(a, b) ==> EqualsIgnoreCase(b, a)
  {
  }

  /**
   * Left-to-right replacement of every non-overlapping occurrence of `pattern` by
   * `replacement`, as `String.replaceAll` does for a pattern without regular-expression
   * metacharacters.
   */
  function ReplaceAll(s: string, pattern: string, replacement: string): (r: string)
    requires |pattern| > 0
    decreases |s|
  {
    if |s| < |pattern| then s
    else if s[..|pattern|] == pattern then
      replacement + ReplaceAll(s[|pattern|..], pattern, replacement)
    else
      [s[0]] + ReplaceAll(s[1..], pattern, replacement)
  }

  /**
   * When the replacement differs from the pattern only where the pattern has `from`
   * and the replacement has `to`, replacing changes no length and turns some `from`
   * characters into `to` and nothing else.
   */
  lemma {:induction false} ReplaceAllOnlyRecases(s: string, pattern: string, replacement: string, from: char, to: char)
    requires |pattern| > 0 && |replacement| == |pattern|
    requires forall k :: 0 <= k < |pattern| ==>
      replacement[k] == pattern[k] || (pattern[k] == from && replacement[k] == to)
    ensures |ReplaceAll(s, pattern, replacement)| == |s|
    ensures forall k :: 0 <= k < |s| ==>
      ReplaceAll(s, pattern, replacement)[k] == s[k]
      || (s[k] == from && ReplaceAll(s, pattern, replacement)[k] == to)
    decreases |s|
  {
    var r := ReplaceAll(s, pattern, replacement);
    if |s| < |pattern| {
    } else if s[..|pattern|] == pattern {
      var rest := s[|pattern|..];
      ReplaceAllOnlyRecases(rest, pattern, replacement, from, to);
      assert r == replacement + ReplaceAll(rest, pattern, replacement);
      forall k | 0 <= k < |s|
        ensures r[k] == s[k] || (s[k] == from && r[k] == to)
      {
        if k < |pattern| {
          assert s[k] == pattern[k];
        } else {
          assert r[k] == ReplaceAll(rest, pattern, replacement)[k - |pattern|];
          assert s[k] == rest[k - |pattern|];
        }
      }
    } else {
      var rest := s[1..];
      ReplaceAllOnlyRecases(rest, pattern, replacement, from, to);
      assert r == [s[0]] + ReplaceAll(rest, pattern, replacement);
      forall k | 0 <= k < |s|
        ensures r[k] == s[k] || (s[k] == from && r[k] == to)
      {
        if k > 0 {
          assert r[k] == ReplaceAll(rest, pattern, replacement)[k - 1];
          assert s[k] == rest[k - 1];
        }
      }
    }
  }

  /** `s` contains `pattern` starting at position `i`. */
  predicate OccursAt(s: string, pattern: string, i: int) {
    0 <= i && i + |pattern| <= |s| && s[i..i + |pattern|] == pattern
  }

  /** A string in which the pattern never occurs is left unchanged by replacing it. */
  lemma {:induction false} ReplaceAllWithoutOccurrence(s: string, pattern: string, replacement: string)
    requires |pattern| > 0
    requires forall i :: 0 <= i <= |s| - |pattern| ==> !OccursAt(s, pattern, i)
    ensures ReplaceAll(s, pattern, replacement) == s
    decreases |s|
  {
    if |s| >= |pattern| {
      assert !OccursAt(s, pattern, 0);
      assert s[..|pattern|] != pattern;
      forall i | 0 <= i <= |s[1..]| - |pattern|
        ensures !OccursAt(s[1..], pattern, i)
      {
        assert !OccursAt(s, pattern, i + 1);
        assert s[1..][i..i + |pattern|] == s[i + 1..i + 1 + |pattern|];
      }
      ReplaceAllWithoutOccurrence(s[1..], pattern, replacement);
      assert s == [s[0]] + s[1..];
    }
  }

  /** The number of occurrences of `c` in `s`. */
  function CountChar(s: string, c: char): nat
  {
    if |s| == 0 then 0 else (if s[0] == c then 1 else 0) + CountChar(s[1..], c)
  }

  lemma {:induction false} CountCharAppend(a: string, b: string, c: char)
    ensures CountChar(a + b, c) == CountChar(a, c) + CountChar(b, c)
    decreases |a|
  {
    if |a| == 0 {
      assert a + b == b;
    } else {
      assert (a + b)[1..] == a[1..] + b;
      CountCharAppend(a[1..], b, c);
    }
  }

  /** The characters of `s` up to (not including) the first `sep`, or all of `s`. */
  function UpTo(s: string, sep: char): (r: string)
    ensures |r| <= |s| && r == s[..|r|]
    ensures sep !in r
  {
    if |s| == 0 || s[0] == sep then "" else [s[0]] + UpTo(s[1..], sep)
  }

  /**
   * `s` split on every `sep`, the way a terminator-separated list is read: each piece
   * is the text before the next `sep`; text after the last `sep` forms a final piece.
   */
  function Split(s: string, sep: char): (r: seq<string>)
    ensures |r| > 0
    decreases |s|
  {
    var head := UpTo(s, sep);
    if |head| == |s| then [s]
    else [head] + Split(s[|head| + 1..], sep)
  }

  /** Reading `piece + sep + rest` splits off `piece` first when `piece` holds no `sep`. */
  lemma {:induction false} UpToOfTerminated(piece: string, sep: char, rest: string)
    requires sep !in piece
    ensures UpTo(piece + [sep] + rest, sep) == piece
    decreases |piece|
  {
    if |piece| > 0 {
      assert (piece + [sep] + rest)[1..] == piece[1..] + [sep] + rest;
      UpToOfTerminated(piece[1..], sep, rest);
    }
  }

  /** Each piece followed by `sep`, all concatenated. */
  function JoinTerminated(pieces: seq<string>, sep: char): (r: string)
    ensures r == "" <==> |pieces| == 0
  {
    if |pieces| == 0 then "" else pieces[0] + [sep] + JoinTerminated(pieces[1..], sep)
  }

  /**
   * Splitting a terminated join on its terminator gives the pieces back, followed by
   * the empty text after the last terminator, provided no piece holds the terminator.
   */
  lemma {:induction false} SplitJoinTerminated(pieces: seq<string>, sep: char)
    requires forall i :: 0 <= i < |pieces| ==> sep !in pieces[i]
    ensures Split(JoinTerminated(pieces, sep), sep) == pieces + [""]
    decreases |pieces|
  {
    if |pieces| > 0 {
      var rest := JoinTerminated(pieces[1..], sep);
      var s := JoinTerminated(pieces, sep);
      assert s == pieces[0] + [sep] + rest;
      UpToOfTerminated(pieces[0], sep, rest);
      assert s[|pieces[0]| + 1..] == rest;
      SplitJoinTerminated(pieces[1..], sep);
      assert pieces == [pieces[0]] + pieces[1..];
    }
  }

  /** A terminated join holds exactly one terminator per piece when no piece holds one. */
  lemma {:induction false} CountJoinTerminated(pieces: seq<string>, sep: char)
    requires forall i :: 0 <= i < |pieces| ==> sep !in pieces[i]
    ensures CountChar(JoinTerminated(pieces, sep), sep) == |pieces|
    decreases |pieces|
  {
    if |pieces| > 0 {
      var rest := JoinTerminated(pieces[1..], sep);
      CountCharAppend(pieces[0] + [sep], rest, sep);
      CountCharAppend(pieces[0], [sep], sep);
      CountCharAbsent(pieces[0], sep);
      assert CountChar([sep], sep) == 1;
      CountJoinTerminated(pieces[1..], sep);
    }
  }

  lemma {:induction false} CountCharAbsent(s: string, c: char)
    requires c !in s
    ensures CountChar(s, c) == 0
    decreases |s|
  {
    if |s| > 0 {
      CountCharAbsent(s[1..], c);
    }
  }
}
