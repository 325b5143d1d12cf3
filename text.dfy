/**
 * The two string operations the log parser takes from Python's `str`:
 * `strip()` with no argument and `split(" ", maxsplit)` with an explicit
 * single-space separator.  Strings are sequences of code points.
 */
module Text {

  /** Python's `str.isspace()` for a single code point. */
  predicate IsSpace(c: char) {
    var n := c as int;
    n == 0x20 || 0x09 <= n <= 0x0D || 0x1C <= n <= 0x1F || n == 0x85 || n == 0xA0
    || n == 0x1680 || 0x2000 <= n <= 0x200A || n == 0x2028 || n == 0x2029
    || n == 0x202F || n == 0x205F || n == 0x3000
  }

  predicate AllSpace(s: string) {
    forall i | 0 <= i < |s| :: IsSpace(s[i])
  }

  /** Drops the leading whitespace. */
  function TrimStart(s: string): string {
    if s != [] && IsSpace(s[0]) then TrimStart(s[1..]) else s
  }

  /** Drops the trailing whitespace. */
  function TrimEnd(s: string): string {
    if s != [] && IsSpace(s[|s| - 1]) then TrimEnd(s[..|s| - 1]) else s
  }

  /** Python's `s.strip()`. */
  function Strip(s: string): string {
    TrimEnd(TrimStart(s))
  }

  /** TrimStart keeps the suffix of `s` that starts at its first non-space and drops only whitespace. */
  lemma {:induction false} TrimStartSpec(s: string)
    ensures var r := TrimStart(s);
            |r| <= |s| && r == s[|s| - |r|..] && AllSpace(s[..|s| - |r|])
            && (r == [] || !IsSpace(r[0]))
  {
    if s != [] && IsSpace(s[0]) {
      TrimStartSpec(s[1..]);
      var r := TrimStart(s);
      assert s[..|s| - |r|] == [s[0]] + s[1..][..|s| - 1 - |r|];
    }
  }

  /** TrimEnd keeps the prefix of `s` that ends at its last non-space and drops only whitespace. */
  lemma {:induction false} TrimEndSpec(s: string)
    ensures var r := TrimEnd(s);
            |r| <= |s| && r == s[..|r|] && AllSpace(s[|r|..])
            && (r == [] || !IsSpace(r[|r| - 1]))
  {
    if s != [] && IsSpace(s[|s| - 1]) {
      TrimEndSpec(s[..|s| - 1]);
      var r := TrimEnd(s);
      assert s[|r|..] == s[..|s| - 1][|r|..] + [s[|s| - 1]];
    }
  }

  /**
   * Strip gives the empty string exactly for all-whitespace input, and
   * otherwise a string that neither starts nor ends with whitespace.
   */
  lemma StripSpec(s: string)
    ensures Strip(s) == [] <==> AllSpace(s)
    ensures Strip(s) != [] ==> !IsSpace(Strip(s)[0]) && !IsSpace(Strip(s)[|Strip(s)| - 1])
  {
    var t := TrimStart(s);
    TrimStartSpec(s);
    TrimEndSpec(t);
    var r := TrimEnd(t);
    assert Strip(s) == r;
    AllSpaceConcat(s[..|s| - |t|], t);
    assert s == s[..|s| - |t|] + t;
    if r != [] {
      assert r[0] == t[0];
    } else {
      assert t[|r|..] == t;
    }
  }

  /** A concatenation is all whitespace exactly when both parts are. */
  lemma AllSpaceConcat(a: string, b: string)
    ensures AllSpace(a + b) <==> AllSpace(a) && AllSpace(b)
  {
    if AllSpace(a + b) {
      forall i | 0 <= i < |a| ensures IsSpace(a[i]) {
        assert a[i] == (a + b)[i];
      }
      forall i | 0 <= i < |b| ensures IsSpace(b[i]) {
        assert b[i] == (a + b)[|a| + i];
      }
    }
  }

  /**
   * Strip removes exactly a whitespace prefix and a whitespace suffix:
   * whatever text lies between them, if it begins and ends with a
   * non-space, is what Strip returns.
   */
  lemma StripPadded(before: string, text: string, after: string)
    requires AllSpace(before) && AllSpace(after)
    requires text != [] && !IsSpace(text[0]) && !IsSpace(text[|text| - 1])
    ensures Strip(before + text + after) == text
  {
    var s := before + text + after;
    TrimStartSpaces(before, text + after);
    assert Strip(s) == TrimEnd(TrimStart(s));
    assert s == before + (text + after);
    TrimEndSpaces(text, after);
  }

  lemma {:induction false} TrimStartSpaces(spaces: string, rest: string)
    requires AllSpace(spaces)
    requires rest != [] && !IsSpace(rest[0])
    ensures TrimStart(spaces + rest) == rest
  {
    if spaces != [] {
      assert (spaces + rest)[1..] == spaces[1..] + rest;
      TrimStartSpaces(spaces[1..], rest);
    }
  }

  lemma {:induction false} TrimEndSpaces(rest: string, spaces: string)
    requires AllSpace(spaces)
    requires rest != [] && !IsSpace(rest[|rest| - 1])
    ensures TrimEnd(rest + spaces) == rest
  {
    if spaces != [] {
      var n := |spaces|;
      assert (rest + spaces)[..|rest| + n - 1] == rest + spaces[..n - 1];
      TrimEndSpaces(rest, spaces[..n - 1]);
    } else {
      assert rest + spaces == rest;
    }
  }

  /** Python's `" ".join(parts)`. */
  function Join(parts: seq<string>): string {
    if |parts| <= 1 then (if parts == [] then "" else parts[0])
    else parts[0] + " " + Join(parts[1..])
  }

  /**
   * Python's `s.split(" ", maxsplit)`: cut at the first `maxsplit` single
   * spaces, left to right; adjacent spaces give empty fields and the last
   * field keeps the rest of `s` verbatim.  Read one code point at a time:
   * a space while cuts remain starts a new field, anything else extends
   * the current one.  It yields at least one field and at most
   * `maxsplit + 1`.
   */
  function SplitN(s: string, maxsplit: nat): (parts: seq<string>)
    ensures 1 <= |parts| <= maxsplit + 1
    decreases |s|
  {
    if s == [] then [""]
    else if s[0] == ' ' && maxsplit > 0 then [""] + SplitN(s[1..], maxsplit - 1)
    else
      var tail := SplitN(s[1..], maxsplit);
      [[s[0]] + tail[0]] + tail[1..]
  }

  /** A code point in front of a split lands in its first field. */
  lemma JoinPrepend(c: char, tail: seq<string>)
    requires tail != []
    ensures Join([[c] + tail[0]] + tail[1..]) == [c] + Join(tail)
  {
    var parts := [[c] + tail[0]] + tail[1..];
    assert parts[1..] == tail[1..];
  }

  /** Joining the fields of a split with single spaces gives back the string. */
  lemma {:induction false} SplitJoin(s: string, maxsplit: nat)
    ensures Join(SplitN(s, maxsplit)) == s
    decreases |s|
  {
    if s != [] {
      if s[0] == ' ' && maxsplit > 0 {
        var tail := SplitN(s[1..], maxsplit - 1);
        SplitJoin(s[1..], maxsplit - 1);
        assert ([""] + tail)[1..] == tail;
        assert s == " " + s[1..];
      } else {
        var tail := SplitN(s[1..], maxsplit);
        SplitJoin(s[1..], maxsplit);
        JoinPrepend(s[0], tail);
        assert s == [s[0]] + s[1..];
      }
    }
  }

  /** No field of a split but the last contains a space. */
  lemma {:induction false} SplitInnerNoSpace(s: string, maxsplit: nat)
    ensures forall k | 0 <= k < |SplitN(s, maxsplit)| - 1 :: ' ' !in SplitN(s, maxsplit)[k]
    decreases |s|
  {
    if s != [] {
      var parts := SplitN(s, maxsplit);
      if s[0] == ' ' && maxsplit > 0 {
        var tail := SplitN(s[1..], maxsplit - 1);
        SplitInnerNoSpace(s[1..], maxsplit - 1);
        assert forall k | 1 <= k < |parts| :: parts[k] == tail[k - 1];
      } else {
        var tail := SplitN(s[1..], maxsplit);
        SplitInnerNoSpace(s[1..], maxsplit);
        assert forall k | 1 <= k < |parts| :: parts[k] == tail[k];
        assert |parts| > 1 ==> s[0] != ' ';
      }
    }
  }

  /** The last field of a split contains a space only if all `maxsplit` cuts were made. */
  lemma {:induction false} SplitLastNoSpace(s: string, maxsplit: nat)
    ensures |SplitN(s, maxsplit)| <= maxsplit ==> ' ' !in SplitN(s, maxsplit)[|SplitN(s, maxsplit)| - 1]
    decreases |s|
  {
    if s != [] {
      var parts := SplitN(s, maxsplit);
      if s[0] == ' ' && maxsplit > 0 {
        SplitLastNoSpace(s[1..], maxsplit - 1);
      } else {
        var tail := SplitN(s[1..], maxsplit);
        SplitLastNoSpace(s[1..], maxsplit);
        assert parts[|parts| - 1] == if |tail| == 1 then [s[0]] + tail[0] else tail[|tail| - 1];
      }
    }
  }

  /** The number of ' ' code points in `s`. */
  function SpaceCount(s: string): nat {
    multiset(s)[' ']
  }

  /** The spaces of a non-empty string: its first code point's and those of the rest. */
  lemma SpaceCountFront(s: string)
    requires s != []
    ensures SpaceCount(s) == SpaceCount(s[1..]) + (if s[0] == ' ' then 1 else 0)
  {
    assert s == [s[0]] + s[1..];
    assert multiset(s) == multiset{s[0]} + multiset(s[1..]);
  }

  /** A field without spaces, a space and a remainder split into one more field than the remainder. */
  lemma {:induction false} SplitAfterField(field: string, rest: string, maxsplit: nat)
    requires ' ' !in field
    ensures SplitN(field + " " + rest, maxsplit + 1) == [field] + SplitN(rest, maxsplit)
    decreases |field|
  {
    var s := field + " " + rest;
    if field == [] {
      assert s[1..] == rest;
    } else {
      assert s[0] == field[0] && s[1..] == field[1..] + " " + rest;
      SplitAfterField(field[1..], rest, maxsplit);
      assert [field[0]] + field[1..] == field;
    }
  }

  /** With no cuts allowed, the whole string is the one field. */
  lemma {:induction false} SplitNoCuts(s: string)
    ensures SplitN(s, 0) == [s]
    decreases |s|
  {
    if s != [] {
      SplitNoCuts(s[1..]);
      assert [s[0]] + s[1..] == s;
    }
  }

  /** `split(" ", maxsplit)` yields one field more than the spaces it cuts at: min(spaces, maxsplit) + 1. */
  lemma {:induction false} SplitFieldCount(s: string, maxsplit: nat)
    ensures |SplitN(s, maxsplit)| == (if SpaceCount(s) < maxsplit then SpaceCount(s) else maxsplit) + 1
    decreases |s|
  {
    if s == [] {
      assert multiset(s) == multiset{};
    } else {
      SpaceCountFront(s);
      if s[0] == ' ' && maxsplit > 0 {
        SplitFieldCount(s[1..], maxsplit - 1);
      } else {
        SplitFieldCount(s[1..], maxsplit);
      }
    }
  }

  lemma JoinFour(parts: seq<string>)
    requires |parts| == 4
    ensures Join(parts) == parts[0] + " " + parts[1] + " " + parts[2] + " " + parts[3]
  {
    assert parts[1..][1..] == parts[2..];
    assert parts[2..][1..] == parts[3..];
    assert Join(parts[3..]) == parts[3];
    assert Join(parts[2..]) == parts[2] + " " + parts[3];
    assert Join(parts[1..]) == parts[1] + " " + (parts[2] + " " + parts[3]);
  }

  /** Three fields without spaces and a remainder, joined by single spaces, split back into those four. */
  lemma SplitFour(a: string, b: string, c: string, d: string)
    requires ' ' !in a && ' ' !in b && ' ' !in c
    ensures SplitN(a + " " + b + " " + c + " " + d, 3) == [a, b, c, d]
  {
    var tail := c + " " + d;
    var middle := b + " " + tail;
    assert a + " " + b + " " + c + " " + d == a + " " + middle;
    SplitNoCuts(d);
    SplitAfterField(c, d, 0);
    SplitAfterField(b, tail, 1);
    SplitAfterField(a, middle, 2);
  }

  /** The field after the last separator of a string that does not end in whitespace is non-empty and does not either. */
  lemma FinalFieldEnds(front: string, last: string)
    requires !IsSpace((front + " " + last)[|front + " " + last| - 1])
    ensures last != [] && !IsSpace(last[|last| - 1])
  {
    if last != [] {
      assert (front + " " + last)[|front + " " + last| - 1] == last[|last| - 1];
    }
  }
}
