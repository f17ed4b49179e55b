/** The string operations the reply parser relies on, as Foundation defines
    them: `components(separatedBy:)` with a one-character separator,
    `joined(separator:)`, and `trimmingCharacters(in: .whitespacesAndNewlines)`.
    A string is a sequence of Unicode scalar values. */
module Text {

  /** Number of occurrences of `c` in `s`. */
  function Count(s: string, c: char): nat
  {
    if |s| == 0 then 0 else (if s[0] == c then 1 else 0) + Count(s[1..], c)
  }

  /** `s.components(separatedBy: String(sep))`: the maximal runs between
      separators, empty runs included, so `""` gives `[""]` and `"a|"` gives
      `["a", ""]`. */
  function Split(s: string, sep: char): (parts: seq<string>)
    ensures |parts| == Count(s, sep) + 1
    ensures forall i :: 0 <= i < |parts| ==> sep !in parts[i]
  {
    if |s| == 0 then [""]
    else
      var rest := Split(s[1..], sep);
      if s[0] == sep then [""] + rest
      else
        var parts := [[s[0]] + rest[0]] + rest[1..];
        assert forall i :: 1 <= i < |parts| ==> parts[i] == rest[i];
        parts
  }

  /** Splitting introduces no characters: a character of any piece is one of
      the input's. */
  lemma {:induction false} SplitPiecesFromInput(s: string, sep: char, c: char)
    requires c !in s
    ensures forall i :: 0 <= i < |Split(s, sep)| ==> c !in Split(s, sep)[i]
  {
    if |s| > 0 {
      SplitPiecesFromInput(s[1..], sep, c);
      var rest := Split(s[1..], sep);
      if s[0] != sep {
        assert c !in [s[0]] + rest[0];
        var parts := [[s[0]] + rest[0]] + rest[1..];
        assert forall i :: 1 <= i < |parts| ==> parts[i] == rest[i];
      }
    }
  }

  /** `parts.joined(separator: String(sep))`. */
  function Join(parts: seq<string>, sep: char): string
  {
    if |parts| == 0 then ""
    else if |parts| == 1 then parts[0]
    else parts[0] + [sep] + Join(parts[1..], sep)
  }

  /** Joining the pieces of a split with the same separator gives back the
      original string. */
  lemma {:induction false} JoinSplit(s: string, sep: char)
    ensures Join(Split(s, sep), sep) == s
  {
    if |s| > 0 {
      var rest := Split(s[1..], sep);
      JoinSplit(s[1..], sep);
      if s[0] == sep {
        assert Split(s, sep) == [""] + rest;
        assert ([""] + rest)[1..] == rest;
      } else if |rest| == 1 {
        assert Split(s, sep) == [[s[0]] + rest[0]];
      } else {
        var parts := [[s[0]] + rest[0]] + rest[1..];
        assert Split(s, sep) == parts;
        assert parts[1..] == rest[1..];
        assert Join(rest, sep) == rest[0] + [sep] + Join(rest[1..], sep);
        assert s == [s[0]] + s[1..];
      }
    }
  }

  /** A string without the separator is a single piece. */
  lemma {:induction false} SplitWithoutSeparator(a: string, sep: char)
    requires sep !in a
    ensures Split(a, sep) == [a]
  {
    if |a| > 0 {
      SplitWithoutSeparator(a[1..], sep);
      assert a == [a[0]] + a[1..];
    }
  }

  /** The first separator ends the first piece. */
  lemma {:induction false} SplitAtFirstSeparator(a: string, sep: char, b: string)
    requires sep !in a
    ensures Split(a + [sep] + b, sep) == [a] + Split(b, sep)
  {
    var s := a + [sep] + b;
    if |a| == 0 {
      assert s == [sep] + b;
      assert s[1..] == b;
    } else {
      assert s[1..] == a[1..] + [sep] + b;
      SplitAtFirstSeparator(a[1..], sep, b);
      assert a == [a[0]] + a[1..];
    }
  }

  /** Splitting a join of separator-free pieces recovers the pieces. At least
      one piece is needed: the join of no pieces is `""`, which splits into
      one empty piece. */
  lemma {:induction false} SplitJoin(parts: seq<string>, sep: char)
    requires |parts| >= 1
    requires forall i :: 0 <= i < |parts| ==> sep !in parts[i]
    ensures Split(Join(parts, sep), sep) == parts
  {
    if |parts| == 1 {
      SplitWithoutSeparator(parts[0], sep);
    } else {
      SplitJoin(parts[1..], sep);
      SplitAtFirstSeparator(parts[0], sep, Join(parts[1..], sep));
      assert parts == [parts[0]] + parts[1..];
    }
  }

  /** Membership in Foundation's `CharacterSet.whitespacesAndNewlines`:
      general categories Zs, Zl and Zp, U+0009 through U+000D, and U+0085. */
  predicate IsWhitespace(c: char)
  {
    var n := c as int;
    || 0x09 <= n <= 0x0D
    || n == 0x20
    || n == 0x85
    || n == 0xA0
    || n == 0x1680
    || 0x2000 <= n <= 0x200A
    || n == 0x2028
    || n == 0x2029
    || n == 0x202F
    || n == 0x205F
    || n == 0x3000
  }

  predicate AllWhitespace(s: string)
  {
    forall i :: 0 <= i < |s| ==> IsWhitespace(s[i])
  }

  /** Neither starts nor ends with whitespace. */
  predicate IsTrimmed(s: string)
  {
    |s| == 0 || (!IsWhitespace(s[0]) && !IsWhitespace(s[|s| - 1]))
  }

  /** Drops leading whitespace: what remains is a suffix of `s`, what was
      dropped is all whitespace, and what remains does not start with it. */
  function TrimStart(s: string): (r: string)
    ensures |r| <= |s| && r == s[|s| - |r|..]
    ensures AllWhitespace(s[..|s| - |r|])
    ensures |r| == 0 || !IsWhitespace(r[0])
  {
    if |s| > 0 && IsWhitespace(s[0]) then
      var r := TrimStart(s[1..]);
      assert s[..|s| - |r|] == [s[0]] + s[1..][..|s[1..]| - |r|];
      r
    else s
  }

  /** Drops trailing whitespace: what remains is a prefix of `s`, what was
      dropped is all whitespace, and what remains does not end with it. */
  function TrimEnd(s: string): (r: string)
    ensures |r| <= |s| && r == s[..|r|]
    ensures AllWhitespace(s[|r|..])
    ensures |r| == 0 || !IsWhitespace(r[|r| - 1])
  {
    if |s| > 0 && IsWhitespace(s[|s| - 1]) then
      var r := TrimEnd(s[..|s| - 1]);
      assert s[|r|..] == s[..|s| - 1][|r|..] + [s[|s| - 1]];
      r
    else s
  }

  /** `s.trimmingCharacters(in: .whitespacesAndNewlines)`: a trimmed string
      no longer than `s` (`TrimDecomposes` and `TrimUnique` say which one). */
  function Trim(s: string): (r: string)
    ensures IsTrimmed(r)
    ensures |r| <= |s|
  {
    TrimEnd(TrimStart(s))
  }

  /** Trimming introduces no characters. */
  lemma TrimKeepsAbsent(s: string, c: char)
    requires c !in s
    ensures c !in Trim(s)
  {
    var t := TrimStart(s);
    assert c !in t;
  }

  /** `s` is `r` with the whitespace runs `u` before it and `v` after it. */
  predicate WhitespaceAround(s: string, u: string, r: string, v: string)
  {
    AllWhitespace(u) && AllWhitespace(v) && s == u + r + v
  }

  /** `s` is the trimmed string surrounded by whitespace on both sides. */
  lemma TrimDecomposes(s: string)
    ensures exists u, v :: WhitespaceAround(s, u, Trim(s), v)
  {
    var u, v := TrimmedAway(s);
  }

  /** The whitespace runs `Trim` removes from the front and the back. */
  lemma TrimmedAway(s: string) returns (u: string, v: string)
    ensures WhitespaceAround(s, u, Trim(s), v)
  {
    var t := TrimStart(s);
    var r := TrimEnd(t);
    u, v := s[..|s| - |t|], t[|r|..];
    Reassemble(s, t, r);
  }

  lemma Reassemble(s: string, t: string, r: string)
    requires |t| <= |s| && t == s[|s| - |t|..]
    requires |r| <= |t| && r == t[..|r|]
    ensures s == s[..|s| - |t|] + r + t[|r|..]
  {
    assert t == r + t[|r|..];
    assert s == s[..|s| - |t|] + t;
  }

  /** Trimming has one answer: whatever whitespace surrounds a trimmed
      string, trimming recovers exactly that string. */
  lemma TrimUnique(u: string, t: string, v: string)
    requires AllWhitespace(u) && AllWhitespace(v) && IsTrimmed(t)
    ensures Trim(u + t + v) == t
  {
    if |t| == 0 {
      assert u + t + v == (u + v) + "";
      TrimStartDropsWhitespace(u + v, "");
    } else {
      assert u + t + v == u + (t + v);
      TrimStartDropsWhitespace(u, t + v);
      TrimEndDropsWhitespace(t, v);
    }
  }

  lemma {:induction false} TrimStartDropsWhitespace(u: string, w: string)
    requires AllWhitespace(u)
    requires |w| == 0 || !IsWhitespace(w[0])
    ensures TrimStart(u + w) == w
  {
    if |u| > 0 {
      assert (u + w)[1..] == u[1..] + w;
      TrimStartDropsWhitespace(u[1..], w);
    }
  }

  lemma {:induction false} TrimEndDropsWhitespace(w: string, v: string)
    requires AllWhitespace(v)
    requires |w| == 0 || !IsWhitespace(w[|w| - 1])
    ensures TrimEnd(w + v) == w
  {
    if |v| > 0 {
      assert (w + v)[..|w + v| - 1] == w + v[..|v| - 1];
      TrimEndDropsWhitespace(w, v[..|v| - 1]);
    } else {
      assert w + v == w;
    }
  }

  /** Trimming leaves a trimmed string alone, and only a trimmed string:
      together with `Trim`'s own contract this makes trimming idempotent. */
  lemma TrimFixpoint(s: string)
    ensures Trim(s) == s <==> IsTrimmed(s)
  {
    if IsTrimmed(s) {
      assert "" + s + "" == s;
      TrimUnique("", s, "");
    }
  }

  lemma TrimIdempotent(s: string)
    ensures Trim(Trim(s)) == Trim(s)
  {
    TrimFixpoint(Trim(s));
  }
}
