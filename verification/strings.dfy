/** The PHP string built-ins the class relies on: `explode`, `implode`,
    `str_pad` / `sprintf('%0Ns')`, `rtrim`, `ltrim`, `strtoupper` and the
    colon-stripping `preg_replace`. Strings are sequences of characters;
    only ASCII letters change case. */
module Strings {

  /** `str_repeat(x, n)` for a single character. */
  function Rep(n: nat, c: char): (r: string)
    ensures |r| == n
    ensures forall i :: 0 <= i < n ==> r[i] == c
  {
    seq(n, _ => c)
  }

  /** `explode(c, s)`: the fields between the occurrences of `c`. */
  function Split(s: string, c: char): (r: seq<string>)
    ensures |r| >= 1
    ensures forall i :: 0 <= i < |r| ==> c !in r[i]
  {
    if s == [] then [[]]
    else if s[0] == c then [[]] + Split(s[1..], c)
    else
      var t := Split(s[1..], c);
      [[s[0]] + t[0]] + t[1..]
  }

  /** `implode(sep, parts)`. */
  function Join(parts: seq<string>, sep: string): string
  {
    if |parts| == 0 then ""
    else if |parts| == 1 then parts[0]
    else Join(parts[..|parts| - 1], sep) + sep + parts[|parts| - 1]
  }

  /** The accumulator `$s .= $part . ':'` builds: every part followed by `c`. */
  function Terminated(parts: seq<string>, c: char): string
  {
    if |parts| == 0 then ""
    else Terminated(parts[..|parts| - 1], c) + parts[|parts| - 1] + [c]
  }

  /** Concatenation of all parts (the fields left once the separators are removed). */
  function Flatten(parts: seq<string>): string
  {
    if |parts| == 0 then "" else parts[0] + Flatten(parts[1..])
  }

  /** `preg_replace('/[:]+/', '', s)`: every `c` removed. */
  function Remove(s: string, c: char): (r: string)
    ensures c !in r
  {
    if s == [] then ""
    else (if s[0] == c then "" else [s[0]]) + Remove(s[1..], c)
  }

  /** `rtrim(s, c)`. */
  function RTrim(s: string, c: char): string
  {
    if |s| > 0 && s[|s| - 1] == c then RTrim(s[..|s| - 1], c) else s
  }

  /** `ltrim(s, c)`. */
  function LTrim(s: string, c: char): string
  {
    if |s| > 0 && s[0] == c then LTrim(s[1..], c) else s
  }

  /** `str_pad(s, n, c, STR_PAD_LEFT)`, also `sprintf('%0ns', s)`: never truncates. */
  function PadLeft(s: string, n: nat, c: char): string
  {
    if |s| >= n then s else Rep(n - |s|, c) + s
  }

  /** `str_pad(s, n, c, STR_PAD_RIGHT)`. */
  function PadRight(s: string, n: nat, c: char): string
  {
    if |s| >= n then s else s + Rep(n - |s|, c)
  }

  function UpperChar(c: char): char
  {
    if 'a' <= c <= 'z' then (c as int - 32) as char else c
  }

  /** `strtoupper(s)`: ASCII letters only, as PHP 8 does. */
  function Upper(s: string): (r: string)
    ensures |r| == |s|
  {
    seq(|s|, i requires 0 <= i < |s| => UpperChar(s[i]))
  }

  /** `str_split(s, 2)`. */
  function Pairs(s: string): seq<string>
    decreases |s|
  {
    if |s| <= 2 then [s] else [s[..2]] + Pairs(s[2..])
  }

  // ---------------------------------------------------------------- lemmas

  lemma UpperAppend(a: string, b: string)
    ensures Upper(a + b) == Upper(a) + Upper(b)
  {
  }

  /** Upper-casing an `implode` upper-cases each part, the separator being no letter. */
  lemma {:induction false} UpperJoin(parts: seq<string>, c: char)
    requires UpperChar(c) == c
    ensures Upper(Join(parts, [c])) == Join(seq(|parts|, i requires 0 <= i < |parts| => Upper(parts[i])), [c])
  {
    var n := |parts|;
    var up := seq(n, i requires 0 <= i < n => Upper(parts[i]));
    if n == 0 {
    } else if n == 1 {
    } else {
      var init := parts[..n - 1];
      UpperJoin(init, c);
      assert up[..n - 1] == seq(|init|, i requires 0 <= i < |init| => Upper(init[i]));
      UpperAppend(Join(init, [c]) + [c], parts[n - 1]);
      UpperAppend(Join(init, [c]), [c]);
      assert Upper([c]) == [c];
    }
  }

  /** Trimming a non-letter commutes with upper-casing. */
  lemma {:induction false} RTrimUpper(s: string, c: char)
    requires !('a' <= c <= 'z') && !('A' <= c <= 'Z')
    ensures RTrim(Upper(s), c) == Upper(RTrim(s, c))
    decreases |s|
  {
    if |s| > 0 {
      var n := |s| - 1;
      assert Upper(s)[..n] == Upper(s[..n]);
      assert Upper(s)[n] == UpperChar(s[n]);
      assert UpperChar(s[n]) == c <==> s[n] == c;
      if s[n] == c {
        RTrimUpper(s[..n], c);
      }
    }
  }

  lemma SplitNoSeparator(s: string, c: char)
    requires c !in s
    ensures Split(s, c) == [s]
  {
    if s != [] {
      assert s[0] != c;
      SplitNoSeparator(s[1..], c);
      assert [s[0]] + s[1..] == s;
    }
  }

  /** Splitting at one separator splits the two sides independently. */
  lemma {:induction false} SplitAround(x: string, y: string, c: char)
    ensures Split(x + [c] + y, c) == Split(x, c) + Split(y, c)
  {
    if x == [] {
      assert x + [c] + y == [c] + y;
      assert ([c] + y)[1..] == y;
    } else {
      assert (x + [c] + y)[0] == x[0];
      assert (x + [c] + y)[1..] == x[1..] + [c] + y;
      SplitAround(x[1..], y, c);
    }
  }

  lemma {:induction false} JoinAppend(a: seq<string>, b: seq<string>, c: char)
    requires |a| > 0 && |b| > 0
    ensures Join(a + b, [c]) == Join(a, [c]) + [c] + Join(b, [c])
    decreases |b|
  {
    if |b| == 1 {
      assert (a + b)[..|a + b| - 1] == a;
    } else {
      var b' := b[..|b| - 1];
      assert (a + b)[..|a + b| - 1] == a + b';
      assert b[..|b| - 1] == b';
      JoinAppend(a, b', c);
    }
  }

  /** `explode` undoes `implode` when no part holds the separator. */
  lemma {:induction false} SplitJoin(parts: seq<string>, c: char)
    requires |parts| > 0
    requires forall i :: 0 <= i < |parts| ==> c !in parts[i]
    ensures Split(Join(parts, [c]), c) == parts
  {
    var n := |parts|;
    if n == 1 {
      SplitNoSeparator(parts[0], c);
    } else {
      var init := parts[..n - 1];
      SplitJoin(init, c);
      SplitNoSeparator(parts[n - 1], c);
      SplitAround(Join(init, [c]), parts[n - 1], c);
      assert init + [parts[n - 1]] == parts;
    }
  }

  /** `implode` undoes `explode`. */
  lemma {:induction false} JoinSplit(s: string, c: char)
    ensures Join(Split(s, c), [c]) == s
    decreases |s|
  {
    if s == [] {
    } else {
      var t := Split(s[1..], c);
      JoinSplit(s[1..], c);
      if s[0] == c {
        if |t| == 1 {
          assert Join([[]] + t, [c]) == Join([[]], [c]) + [c] + Join(t, [c]) by {
            JoinAppend([[]], t, c);
          }
        } else {
          JoinAppend([[]], t, c);
        }
        assert s == [c] + s[1..];
      } else {
        JoinHead(s[0], t, c);
        assert s == [s[0]] + s[1..];
      }
    }
  }

  lemma {:induction false} JoinHead(h: char, t: seq<string>, c: char)
    requires |t| > 0
    ensures Join([[h] + t[0]] + t[1..], [c]) == [h] + Join(t, [c])
    decreases |t|
  {
    var n := |t|;
    if n == 1 {
    } else {
      var u := [[h] + t[0]] + t[1..];
      assert u[..n - 1] == [[h] + t[..n - 1][0]] + t[..n - 1][1..];
      JoinHead(h, t[..n - 1], c);
      assert u[n - 1] == t[n - 1];
    }
  }

  lemma {:induction false} SplitCount(parts: seq<string>, c: char)
    requires |parts| > 0
    requires forall i :: 0 <= i < |parts| ==> c !in parts[i]
    ensures |Split(Join(parts, [c]), c)| == |parts|
  {
    SplitJoin(parts, c);
  }

  /** The accumulated `part:` string, once `rtrim`med, is the `implode`. */
  lemma {:induction false} RTrimTerminated(parts: seq<string>, c: char)
    requires forall i :: 0 <= i < |parts| ==> parts[i] != [] && c !in parts[i]
    ensures RTrim(Terminated(parts, c), c) == Join(parts, [c])
  {
    TerminatedJoin(parts, c);
    if |parts| > 0 {
      var j := Join(parts, [c]);
      JoinLast(parts, c);
      assert (j + [c])[..|j + [c]| - 1] == j;
    }
  }

  lemma AppendAssoc(a: string, b: string, c: string)
    ensures (a + b) + c == a + (b + c)
  {
  }

  lemma TerminatedSnoc(parts: seq<string>, x: string, c: char)
    ensures Terminated(parts + [x], c) == Terminated(parts, c) + x + [c]
  {
    assert (parts + [x])[..|parts|] == parts;
  }

  lemma {:induction false} TerminatedJoin(parts: seq<string>, c: char)
    ensures |parts| > 0 ==> Terminated(parts, c) == Join(parts, [c]) + [c]
    ensures |parts| == 0 ==> Terminated(parts, c) == ""
  {
    if |parts| > 1 {
      TerminatedJoin(parts[..|parts| - 1], c);
    }
  }

  /** The last character of an `implode` of non-empty, separator-free parts is not the separator. */
  lemma {:induction false} JoinLast(parts: seq<string>, c: char)
    requires |parts| > 0
    requires forall i :: 0 <= i < |parts| ==> parts[i] != [] && c !in parts[i]
    ensures |Join(parts, [c])| > 0
    ensures Join(parts, [c])[|Join(parts, [c])| - 1] == parts[|parts| - 1][|parts[|parts| - 1]| - 1]
  {
  }

  lemma {:induction false} JoinFirst(parts: seq<string>, c: char)
    requires |parts| > 0
    requires forall i :: 0 <= i < |parts| ==> parts[i] != []
    ensures |Join(parts, [c])| > 0 && Join(parts, [c])[0] == parts[0][0]
  {
    if |parts| > 1 {
      JoinFirst(parts[..|parts| - 1], c);
    }
  }

  /** `implode` adds no character that neither the parts nor the glue hold. */
  lemma {:induction false} JoinExcludes(parts: seq<string>, sep: string, c: char)
    requires c !in sep
    requires forall i :: 0 <= i < |parts| ==> c !in parts[i]
    ensures c !in Join(parts, sep)
  {
    if |parts| > 1 {
      JoinExcludes(parts[..|parts| - 1], sep, c);
    }
  }

  lemma {:induction false} FlattenAppend(a: seq<string>, b: seq<string>)
    ensures Flatten(a + b) == Flatten(a) + Flatten(b)
  {
    if |a| > 0 {
      assert (a + b)[1..] == a[1..] + b;
      FlattenAppend(a[1..], b);
    } else {
      assert a + b == b;
    }
  }

  lemma {:induction false} RemoveAppend(x: string, y: string, c: char)
    ensures Remove(x + y, c) == Remove(x, c) + Remove(y, c)
  {
    if x == [] {
      assert x + y == y;
    } else {
      assert (x + y)[1..] == x[1..] + y;
      RemoveAppend(x[1..], y, c);
    }
  }

  lemma {:induction false} RemoveAbsent(x: string, c: char)
    requires c !in x
    ensures Remove(x, c) == x
  {
    if x != [] {
      RemoveAbsent(x[1..], c);
    }
  }

  /** Removing the separator from an `implode` leaves the parts back to back. */
  lemma {:induction false} RemoveJoin(parts: seq<string>, c: char)
    requires forall i :: 0 <= i < |parts| ==> c !in parts[i]
    ensures Remove(Join(parts, [c]), c) == Flatten(parts)
  {
    var n := |parts|;
    if n == 0 {
    } else if n == 1 {
      RemoveAbsent(parts[0], c);
      assert Flatten(parts) == parts[0] + Flatten([]);
    } else {
      var init := parts[..n - 1];
      RemoveJoin(init, c);
      assert init + [parts[n - 1]] == parts;
      RemoveJoinStep(init, parts[n - 1], c);
    }
  }

  lemma RemoveJoinStep(init: seq<string>, last: string, c: char)
    requires |init| > 0 && c !in last
    requires Remove(Join(init, [c]), c) == Flatten(init)
    ensures Remove(Join(init + [last], [c]), c) == Flatten(init + [last])
  {
    var p := init + [last];
    var j := Join(init, [c]);
    calc {
      Remove(Join(p, [c]), c);
    == { assert p[..|p| - 1] == init && p[|p| - 1] == last; }
      Remove(j + [c] + last, c);
    == { RemoveAppend(j + [c], last, c); RemoveAppend(j, [c], c); }
      Remove(j, c) + Remove([c], c) + Remove(last, c);
    == { assert [c][1..] == []; RemoveAbsent(last, c); }
      Flatten(init) + [] + last;
    == { assert Flatten(init) + [] == Flatten(init); }
      Flatten(init) + last;
    == { FlattenAppend(init, [last]); assert Flatten([last]) == last + Flatten([]); }
      Flatten(p);
    }
  }

  lemma LTrimZeros(k: nat, s: string, c: char)
    requires s == [] || s[0] != c
    ensures LTrim(Rep(k, c) + s, c) == s
  {
    if k > 0 {
      assert (Rep(k, c) + s)[1..] == Rep(k - 1, c) + s;
      LTrimZeros(k - 1, s, c);
    } else {
      assert Rep(k, c) + s == s;
    }
  }
}
