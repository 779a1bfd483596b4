/**
 * The JavaScript string built-ins the handler relies on, restricted to the
 * forms it uses: `replace` with a one-character regular expression (global
 * or first-match), `split` on a one-character
 * separator, and ASCII `toUpperCase`/`toLowerCase`.
 */
module Strings {

  /** Number of occurrences of the character `c` in `s`. */
  function Count(s: string, c: char): (n: nat)
    ensures n <= |s|
    ensures n == 0 <==> c !in s
  {
    if s == [] then 0 else (if s[0] == c then 1 else 0) + Count(s[1..], c)
  }

  lemma {:induction false} CountConcat(a: string, b: string, c: char)
    ensures Count(a + b, c) == Count(a, c) + Count(b, c)
  {
    if a != [] {
      assert (a + b)[1..] == a[1..] + b;
      CountConcat(a[1..], b, c);
    } else {
      assert a + b == b;
    }
  }

  /** `s.replace(/c/g, rep)`: every occurrence of `c` becomes `rep`. */
  function ReplaceAll(s: string, c: char, rep: string): string
  {
    if s == [] then [] else (if s[0] == c then rep else [s[0]]) + ReplaceAll(s[1..], c, rep)
  }

  /** A string without `c` is left unchanged by replacing `c`. */
  lemma {:induction false} ReplaceAllAbsent(s: string, c: char, rep: string)
    requires c !in s
    ensures ReplaceAll(s, c, rep) == s
  {
    if s != [] {
      assert s[0] in s;
      assert forall x :: x in s[1..] ==> x in s;
      ReplaceAllAbsent(s[1..], c, rep);
      assert [s[0]] + s[1..] == s;
    }
  }

  /** A replacement without `c` leaves no `c` behind. */
  lemma {:induction false} ReplaceAllRemoves(s: string, c: char, rep: string)
    requires c !in rep
    ensures c !in ReplaceAll(s, c, rep)
  {
    if s != [] {
      ReplaceAllRemoves(s[1..], c, rep);
    }
  }

  lemma ReplaceAllOne(x: char, c: char, rep: string)
    ensures ReplaceAll([x], c, rep) == if x == c then rep else [x]
  {
    assert [x][1..] == [];
  }

  lemma {:induction false} ReplaceAllConcat(a: string, b: string, c: char, rep: string)
    ensures ReplaceAll(a + b, c, rep) == ReplaceAll(a, c, rep) + ReplaceAll(b, c, rep)
  {
    if a == [] {
      assert a + b == b;
    } else {
      var ab := a + b;
      assert ab[0] == a[0] && ab[1..] == a[1..] + b;
      ReplaceAllConcat(a[1..], b, c, rep);
    }
  }

  /**
   * `s.replace(/c/, rep)` (no `g` flag): only the first occurrence of `c`
   * is replaced.
   */
  function ReplaceFirst(s: string, c: char, rep: string): (r: string)
  {
    if s == [] then []
    else if s[0] == c then rep + s[1..]
    else [s[0]] + ReplaceFirst(s[1..], c, rep)
  }

  /** Without an occurrence of `c` the string is unchanged. */
  lemma {:induction false} ReplaceFirstAbsent(s: string, c: char, rep: string)
    requires c !in s
    ensures ReplaceFirst(s, c, rep) == s
  {
    if s != [] {
      assert s[0] in s;
      assert forall k :: 0 <= k < |s| - 1 ==> s[1..][k] == s[k + 1];
      ReplaceFirstAbsent(s[1..], c, rep);
      assert [s[0]] + s[1..] == s;
    }
  }

  /**
   * With its first occurrence of `c` at index `i`, `rep` takes the place of
   * that occurrence and everything else stays.
   */
  lemma {:induction false} ReplaceFirstAt(s: string, c: char, rep: string, i: nat)
    requires i < |s| && s[i] == c && c !in s[..i]
    ensures ReplaceFirst(s, c, rep) == s[..i] + rep + s[i + 1..]
  {
    if i == 0 {
      assert s[..0] == [];
    } else {
      assert s[0] == s[..i][0];
      var t := s[1..];
      assert t[..i - 1] == s[..i][1..];
      ReplaceFirstAt(t, c, rep, i - 1);
      assert s[..i] == [s[0]] + t[..i - 1];
      assert s[i + 1..] == t[i..];
    }
  }

  /** Replacing the first `c` skips over a prefix that holds none. */
  lemma {:induction false} ReplaceFirstSkip(a: string, b: string, c: char, rep: string)
    requires c !in a
    ensures ReplaceFirst(a + b, c, rep) == a + ReplaceFirst(b, c, rep)
  {
    if a == [] {
      assert a + b == b;
    } else {
      assert (a + b)[0] == a[0] && (a + b)[1..] == a[1..] + b;
      ReplaceFirstSkip(a[1..], b, c, rep);
      calc {
        ReplaceFirst(a + b, c, rep);
        [a[0]] + ReplaceFirst(a[1..] + b, c, rep);
        [a[0]] + (a[1..] + ReplaceFirst(b, c, rep));
        ([a[0]] + a[1..]) + ReplaceFirst(b, c, rep);
        { assert [a[0]] + a[1..] == a; }
        a + ReplaceFirst(b, c, rep);
      }
    }
  }

  /**
   * `s.split(sep)` for a one-character separator: the maximal runs between
   * separators, including empty ones, so that there is always one more
   * piece than there are separators ("".split("/") is [""]).
   */
  function Split(s: string, sep: char): (parts: seq<string>)
    ensures |parts| == Count(s, sep) + 1
    ensures forall k :: 0 <= k < |parts| ==> sep !in parts[k]
  {
    if s == [] then [[]]
    else
      var rest := Split(s[1..], sep);
      if s[0] == sep then [[]] + rest
      else [[s[0]] + rest[0]] + rest[1..]
  }

  /** `parts.join(sep)`: the inverse of `Split`. */
  function Join(parts: seq<string>, sep: char): (s: string)
    requires |parts| >= 1
    ensures Count(s, sep) >= |parts| - 1
  {
    if |parts| == 1 then parts[0]
    else
      CountConcat(parts[0] + [sep], Join(parts[1..], sep), sep);
      CountConcat(parts[0], [sep], sep);
      parts[0] + [sep] + Join(parts[1..], sep)
  }

  /** Splitting loses nothing: joining the pieces gives the string back. */
  lemma {:induction false} JoinSplit(s: string, sep: char)
    ensures Join(Split(s, sep), sep) == s
  {
    if s != [] {
      JoinSplit(s[1..], sep);
      var rest := Split(s[1..], sep);
      if s[0] != sep {
        if |rest| == 1 {
          assert Join(Split(s, sep), sep) == [s[0]] + rest[0];
        } else {
          assert Split(s, sep)[1..] == rest[1..];
          assert Join(rest, sep) == rest[0] + [sep] + Join(rest[1..], sep);
        }
      } else {
        assert Split(s, sep)[1..] == rest;
      }
    }
  }

  /** Pieces free of the separator are recovered exactly by splitting their join. */
  lemma {:induction false} SplitJoin(parts: seq<string>, sep: char)
    requires |parts| >= 1
    requires forall k :: 0 <= k < |parts| ==> sep !in parts[k]
    ensures Split(Join(parts, sep), sep) == parts
  {
    if |parts| == 1 {
      SplitFree(parts[0], sep);
    } else {
      SplitJoin(parts[1..], sep);
      SplitPrefix(parts[0], Join(parts[1..], sep), sep);
    }
  }

  lemma {:induction false} SplitFree(s: string, sep: char)
    requires sep !in s
    ensures Split(s, sep) == [s]
  {
    if s != [] {
      SplitFree(s[1..], sep);
      assert [s[0]] + s[1..] == s;
    }
  }

  /** Splitting `a + [sep] + b` with `a` free of `sep` puts `a` in front of the pieces of `b`. */
  lemma {:induction false} SplitPrefix(a: string, b: string, sep: char)
    requires sep !in a
    ensures Split(a + [sep] + b, sep) == [a] + Split(b, sep)
  {
    if a == [] {
      assert a + [sep] + b == [sep] + b;
      assert ([sep] + b)[1..] == b;
    } else {
      assert (a + [sep] + b)[1..] == a[1..] + [sep] + b;
      SplitPrefix(a[1..], b, sep);
      assert [a[0]] + a[1..] == a;
    }
  }

  /** The pieces of a `+` chain joined in order. */
  function Concat(pieces: seq<string>): (s: string)
  {
    if pieces == [] then [] else pieces[0] + Concat(pieces[1..])
  }

  lemma {:induction false} ConcatAppend(a: seq<string>, b: seq<string>)
    ensures Concat(a + b) == Concat(a) + Concat(b)
  {
    if a == [] {
      assert a + b == b;
    } else {
      assert (a + b)[0] == a[0] && (a + b)[1..] == a[1..] + b;
      ConcatAppend(a[1..], b);
      calc {
        Concat(a + b);
        a[0] + Concat(a[1..] + b);
        a[0] + (Concat(a[1..]) + Concat(b));
        (a[0] + Concat(a[1..])) + Concat(b);
      }
    }
  }

  lemma ConcatSplit(pieces: seq<string>, i: nat)
    requires i <= |pieces|
    ensures Concat(pieces) == Concat(pieces[..i]) + Concat(pieces[i..])
  {
    assert pieces == pieces[..i] + pieces[i..];
    ConcatAppend(pieces[..i], pieces[i..]);
  }

  lemma ConcatOne(x: string)
    ensures Concat([x]) == x
  {
    assert [x][1..] == [];
    assert Concat([x]) == x + Concat([]);
  }

  lemma ConcatTwo(x: string, y: string)
    ensures Concat([x, y]) == x + y
  {
    assert [x, y][1..] == [y];
    ConcatOne(y);
  }


  /** The last piece ends the joined string. */
  lemma ConcatLast(pieces: seq<string>)
    requires |pieces| >= 1
    ensures var s := Concat(pieces); var t := pieces[|pieces| - 1];
      |t| <= |s| && s[|s| - |t|..] == t
  {
    var n := |pieces|;
    ConcatSplit(pieces, n - 1);
    assert pieces[n - 1..] == [pieces[n - 1]];
    assert [pieces[n - 1]][1..] == [];
  }

  /** `t` occurs in `s` as a contiguous piece. */
  predicate Contains(s: string, t: string)
  {
    exists i, j :: 0 <= i <= j <= |s| && s[i..j] == t
  }

  lemma ContainsMiddle(a: string, t: string, b: string)
    ensures Contains(a + t + b, t)
  {
    assert (a + t + b)[|a|..|a| + |t|] == t;
  }

  lemma ConcatSnoc(pieces: seq<string>, x: string)
    ensures Concat(pieces + [x]) == Concat(pieces) + x
  {
    ConcatAppend(pieces, [x]);
    ConcatOne(x);
  }

  /** What occurs in a string occurs in any string around it. */
  lemma ContainsWithin(a: string, b: string, c: string, t: string)
    requires Contains(b, t)
    ensures Contains(a + b + c, t)
  {
    var i, j :| 0 <= i <= j <= |b| && b[i..j] == t;
    assert (a + b + c)[|a| + i..|a| + j] == b[i..j];
  }

  lemma ContainsBefore(a: string, b: string, t: string)
    requires Contains(a, t)
    ensures Contains(a + b, t)
  {
    var i, j :| 0 <= i <= j <= |a| && a[i..j] == t;
    assert (a + b)[i..j] == a[i..j];
  }

  lemma ContainsLast(a: string, b: string)
    ensures Contains(a + b, b)
  {
    assert (a + b)[|a|..|a + b|] == b;
  }

  /** A run of consecutive pieces occurs in the joined string. */
  lemma ConcatContains(pieces: seq<string>, i: nat, j: nat)
    requires i <= j <= |pieces|
    ensures Contains(Concat(pieces), Concat(pieces[i..j]))
  {
    ConcatSplit(pieces, j);
    ConcatSplit(pieces[..j], i);
    assert pieces[..j][..i] == pieces[..i] && pieces[..j][i..] == pieces[i..j];
    ContainsMiddle(Concat(pieces[..i]), Concat(pieces[i..j]), Concat(pieces[j..]));
  }

  /** Each piece occurs in the joined string. */
  lemma ConcatContainsPiece(pieces: seq<string>, i: nat)
    requires i < |pieces|
    ensures Contains(Concat(pieces), pieces[i])
  {
    ConcatContains(pieces, i, i + 1);
    assert pieces[i..i + 1] == [pieces[i]];
    assert [pieces[i]][1..] == [];
    assert Concat([pieces[i]]) == pieces[i] + Concat([]);
  }

  lemma AppendAssociative(a: string, b: string, c: string)
    ensures a + (b + c) == a + b + c
  {
  }

  /** What follows a prefix of a three-part concatenation. */
  lemma AfterPrefix(a: string, b: string, c: string)
    ensures a <= a + b + c
    ensures (a + b + c)[|a|..] == b + c
  {
  }

  lemma PrefixTransitive(a: string, b: string, c: string)
    requires a <= b && b <= c
    ensures a <= c
  {
    assert forall k :: 0 <= k < |a| ==> a[k] == b[k] == c[k];
  }

  predicate IsLowerAscii(c: char) { 'a' <= c <= 'z' }
  predicate IsUpperAscii(c: char) { 'A' <= c <= 'Z' }

  /** `toUpperCase` on one character, for the ASCII letters. */
  function UpperChar(c: char): (u: char)
    ensures !IsLowerAscii(u)
  {
    if IsLowerAscii(c) then (c as int - 32) as char else c
  }

  /** `toLowerCase` on one character, for the ASCII letters. */
  function LowerChar(c: char): (l: char)
    ensures !IsUpperAscii(l)
  {
    if IsUpperAscii(c) then (c as int + 32) as char else c
  }

  /**
   * `s.toUpperCase()`, character by character. The ensures only spell out the
   * comprehension, as an aid to the verifier at the call sites; what the
   * mapping promises is stated by the case lemmas below.
   */
  function ToUpperCase(s: string): (r: string)
    ensures |r| == |s|
    ensures forall k :: 0 <= k < |s| ==> r[k] == UpperChar(s[k])
  {
    seq(|s|, k requires 0 <= k < |s| => UpperChar(s[k]))
  }

  /**
   * `s.toLowerCase()`, character by character. The ensures only spell out the
   * comprehension, as an aid to the verifier at the call sites; what the
   * mapping promises is stated by the case lemmas below.
   */
  function ToLowerCase(s: string): (r: string)
    ensures |r| == |s|
    ensures forall k :: 0 <= k < |s| ==> r[k] == LowerChar(s[k])
  {
    seq(|s|, k requires 0 <= k < |s| => LowerChar(s[k]))
  }

  /** Upper-casing leaves no ASCII lower-case letter. */
  lemma UpperCaseHasNoLower(s: string)
    ensures forall k :: 0 <= k < |ToUpperCase(s)| ==> !IsLowerAscii(ToUpperCase(s)[k])
  {
  }

  /** Lower-casing leaves no ASCII upper-case letter. */
  lemma LowerCaseHasNoUpper(s: string)
    ensures forall k :: 0 <= k < |ToLowerCase(s)| ==> !IsUpperAscii(ToLowerCase(s)[k])
  {
  }

  /** Upper-casing loses nothing lower-casing keeps: lower-casing afterwards is lower-casing alone. */
  lemma LowerOfUpper(s: string)
    ensures ToLowerCase(ToUpperCase(s)) == ToLowerCase(s)
  {
    var u := ToUpperCase(s);
    forall k | 0 <= k < |s|
      ensures LowerChar(u[k]) == LowerChar(s[k])
    {
    }
  }

  /** Characters that are not ASCII letters are kept in place by both case mappings. */
  lemma CaseKeepsOthers(s: string, k: nat)
    requires k < |s| && !IsLowerAscii(s[k]) && !IsUpperAscii(s[k])
    ensures ToUpperCase(s)[k] == s[k] && ToLowerCase(s)[k] == s[k]
  {
  }
}
