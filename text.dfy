/** The JavaScript string built-ins the core relies on: `String.prototype.split`
    with a one-character separator, `String.prototype.trim`, `Array.prototype.join`
    and plain concatenation of a list of strings. */
module Text {

  /** The code points `trim` removes: ECMAScript's WhiteSpace and LineTerminator. */
  predicate IsWs(c: char)
  {
    c == '\t' || c == '\n' || c == '\U{000B}' || c == '\U{000C}' || c == '\r' || c == ' '
    || c == '\U{00A0}' || c == '\U{1680}' || ('\U{2000}' <= c <= '\U{200A}')
    || c == '\U{2028}' || c == '\U{2029}' || c == '\U{202F}' || c == '\U{205F}'
    || c == '\U{3000}' || c == '\U{FEFF}'
  }

  predicate AllWs(s: string)
  {
    forall i :: 0 <= i < |s| ==> IsWs(s[i])
  }

  /** Neither end of `s` is whitespace. */
  predicate IsTrimmed(s: string)
  {
    s == [] || (!IsWs(s[0]) && !IsWs(s[|s| - 1]))
  }

  /** `s` with its leading whitespace removed. */
  function TrimStart(s: string): (r: string)
    ensures |r| <= |s| && r == s[|s| - |r|..]
    ensures AllWs(s[..|s| - |r|])
    ensures r == [] || !IsWs(r[0])
  {
    if |s| > 0 && IsWs(s[0]) then
      var r := TrimStart(s[1..]);
      assert s[1..][..|s[1..]| - |r|] == s[1..|s| - |r|];
      r
    else s
  }

  /** `s` with its trailing whitespace removed. */
  function TrimEnd(s: string): (r: string)
    ensures |r| <= |s| && r == s[..|r|]
    ensures AllWs(s[|r|..])
    ensures r == [] || !IsWs(r[|r| - 1])
  {
    if |s| > 0 && IsWs(s[|s| - 1]) then
      var r := TrimEnd(s[..|s| - 1]);
      assert s[|r|..] == s[..|s| - 1][|r|..] + [s[|s| - 1]];
      r
    else s
  }

  /** JavaScript's `s.trim()`: the infix of `s` left after removing whitespace
      from both ends. It is empty exactly when `s` is all whitespace. */
  function Trim(s: string): (r: string)
    ensures IsTrimmed(r)
    ensures exists i, j :: 0 <= i <= j <= |s| && r == s[i..j] && AllWs(s[..i]) && AllWs(s[j..])
    ensures r == [] <==> AllWs(s)
    ensures forall c :: c in r ==> c in s
  {
    var t := TrimStart(s);
    var r := TrimEnd(t);
    TrimInfix(s, t, r, |s| - |t|);
    r
  }

  /** Facts about removing whitespace from the front of `s`, leaving `t`,
      and then from the back of `t`, leaving `r`: `r` is the infix
      `s[i..i + |r|]` with only whitespace around it, it is empty exactly when
      `s` is all whitespace, and it has no character `s` lacks. */
  lemma TrimInfix(s: string, t: string, r: string, i: nat)
    requires i <= |s| && t == s[i..] && AllWs(s[..i]) && (t == [] || !IsWs(t[0]))
    requires |r| <= |t| && r == t[..|r|] && AllWs(t[|r|..]) && (r == [] || !IsWs(r[|r| - 1]))
    ensures IsTrimmed(r)
    ensures i + |r| <= |s| && r == s[i..i + |r|]
    ensures AllWs(s[..i]) && AllWs(s[i + |r|..])
    ensures r == [] <==> AllWs(s)
    ensures forall c :: c in r ==> c in s
  {
    SuffixSlices(s, i, t, |r|);
    InfixChars(s, i, i + |r|);
    if r == [] {
      assert t == [] by { assert t[|r|..] == t; }
      assert AllWs(s) by { assert s[..i] == s; }
    } else {
      assert r[0] == t[0];
      assert !IsWs(s[i]) by { assert t[0] == s[i]; }
    }
  }

  /** Slicing the suffix `s[i..]` at `n` slices `s` at `i + n`. */
  lemma SuffixSlices(s: string, i: nat, t: string, n: nat)
    requires i <= |s| && t == s[i..] && n <= |t|
    ensures t[..n] == s[i..i + n] && t[n..] == s[i + n..]
  {
  }

  /** An infix of `s` has no character `s` lacks. */
  lemma InfixChars(s: string, i: nat, j: nat)
    requires i <= j <= |s|
    ensures forall c :: c in s[i..j] ==> c in s
  {
    forall c | c in s[i..j] ensures c in s {
      var m :| 0 <= m < j - i && s[i..j][m] == c;
      assert s[i + m] == c;
    }
  }

  /** Number of occurrences of `c` in `s`. */
  function Count(s: string, c: char): nat
  {
    if s == [] then 0 else (if s[0] == c then 1 else 0) + Count(s[1..], c)
  }

  /** JavaScript's `s.split(c)` for a one-character separator: the maximal
      `c`-free pieces between occurrences of `c`; the empty string gives `[""]`. */
  function Split(s: string, c: char): (r: seq<string>)
    ensures |r| == Count(s, c) + 1
    ensures forall i :: 0 <= i < |r| ==> c !in r[i]
  {
    if s == [] then [[]]
    else
      var rest := Split(s[1..], c);
      if s[0] == c then [[]] + rest
      else [[s[0]] + rest[0]] + rest[1..]
  }

  /** JavaScript's `parts.join(sep)`. */
  function Join(parts: seq<string>, sep: string): string
  {
    if parts == [] then []
    else if |parts| == 1 then parts[0]
    else parts[0] + sep + Join(parts[1..], sep)
  }

  /** All strings of `parts` one after another. */
  function Concat(parts: seq<string>): string
  {
    if parts == [] then [] else parts[0] + Concat(parts[1..])
  }

  /** Where `parts[i]` starts inside `Join(parts, sep)`. */
  function Offset(parts: seq<string>, sep: string, i: nat): nat
    requires i < |parts|
  {
    if i == 0 then 0 else |parts[0]| + |sep| + Offset(parts[1..], sep, i - 1)
  }

  /** Joining the pieces of a split with the separator gives the string back. */
  lemma {:induction false} JoinSplit(s: string, c: char)
    ensures Join(Split(s, c), [c]) == s
  {
    if s != [] {
      var rest := Split(s[1..], c);
      JoinSplit(s[1..], c);
      if s[0] == c {
        assert Split(s, c) == [[]] + rest;
        assert Join(Split(s, c), [c]) == [] + [c] + Join(rest, [c]);
        assert s == [s[0]] + s[1..];
      } else {
        var r := Split(s, c);
        assert r == [[s[0]] + rest[0]] + rest[1..];
        if |rest| == 1 {
          assert Join(r, [c]) == [s[0]] + rest[0];
        } else {
          assert r[1..] == rest[1..];
          assert Join(rest, [c]) == rest[0] + [c] + Join(rest[1..], [c]);
          assert Join(r, [c]) == [s[0]] + rest[0] + [c] + Join(rest[1..], [c]);
        }
        assert s == [s[0]] + s[1..];
      }
    }
  }

  /** Splitting a join of separator-free pieces gives the pieces back. */
  lemma {:induction false} SplitJoin(parts: seq<string>, c: char)
    requires |parts| >= 1
    requires forall i :: 0 <= i < |parts| ==> c !in parts[i]
    ensures Split(Join(parts, [c]), c) == parts
  {
    if |parts| == 1 {
      SplitPiece(parts[0], c);
    } else {
      SplitJoin(parts[1..], c);
      var tail := Join(parts[1..], [c]);
      SplitAppend(parts[0], [c] + tail, c);
      assert Join(parts, [c]) == parts[0] + ([c] + tail);
      var sp := Split([c] + tail, c);
      assert sp == [[]] + parts[1..] by {
        assert ([c] + tail)[1..] == tail;
      }
      assert parts[0] + sp[0] == parts[0];
      assert parts == [parts[0]] + sp[1..];
    }
  }

  /** A separator-free string splits into itself. */
  lemma {:induction false} SplitPiece(s: string, c: char)
    requires c !in s
    ensures Split(s, c) == [s]
  {
    if s != [] {
      SplitPiece(s[1..], c);
      assert s == [s[0]] + s[1..];
    }
  }

  /** Prefixing a separator-free string `p` glues it to the first piece. */
  lemma {:induction false} SplitAppend(p: string, t: string, c: char)
    requires c !in p
    ensures Split(p + t, c) == [p + Split(t, c)[0]] + Split(t, c)[1..]
  {
    var st := Split(t, c);
    if p == [] {
      assert p + t == t;
      assert p + st[0] == st[0];
      assert st == [st[0]] + st[1..];
    } else {
      SplitAppend(p[1..], t, c);
      assert (p + t)[1..] == p[1..] + t;
      assert (p + t)[0] == p[0] != c;
      var rest := Split(p[1..] + t, c);
      assert rest == [p[1..] + st[0]] + st[1..];
      assert Split(p + t, c) == [[p[0]] + rest[0]] + rest[1..];
      assert [p[0]] + (p[1..] + st[0]) == p + st[0];
    }
  }

  /** `Join(parts, sep)` is the text before piece i (as long as its offset),
      the piece, and the text after it, which starts with `sep` unless the
      piece is the last. */
  lemma {:induction false} JoinAround(parts: seq<string>, sep: string, i: nat) returns (pre: string, post: string)
    requires i < |parts|
    ensures Join(parts, sep) == pre + parts[i] + post
    ensures |pre| == Offset(parts, sep, i)
    ensures i + 1 < |parts| ==> |sep| <= |post| && post[..|sep|] == sep
    ensures i + 1 == |parts| ==> post == []
  {
    if |parts| == 1 {
      pre, post := [], [];
    } else if i == 0 {
      pre, post := [], sep + Join(parts[1..], sep);
      assert post[..|sep|] == sep;
    } else {
      var pre', post' := JoinAround(parts[1..], sep, i - 1);
      pre, post := parts[0] + sep + pre', post';
      assert Join(parts, sep) == parts[0] + sep + (pre' + parts[i] + post');
    }
  }

  /** The joined string is the pieces at their offsets with `sep` between them. */
  lemma {:induction false} JoinAt(parts: seq<string>, sep: string, i: nat)
    requires i < |parts|
    ensures Offset(parts, sep, i) + |parts[i]| <= |Join(parts, sep)|
    ensures Join(parts, sep)[Offset(parts, sep, i)..Offset(parts, sep, i) + |parts[i]|] == parts[i]
    ensures i + 1 < |parts| ==>
      Offset(parts, sep, i) + |parts[i]| + |sep| <= |Join(parts, sep)| &&
      Join(parts, sep)[Offset(parts, sep, i) + |parts[i]|..Offset(parts, sep, i) + |parts[i]| + |sep|] == sep
    ensures i + 1 == |parts| ==> Offset(parts, sep, i) + |parts[i]| == |Join(parts, sep)|
  {
    var pre, post := JoinAround(parts, sep, i);
    var j := Join(parts, sep);
    var o, n := |pre|, |parts[i]|;
    assert j[o..o + n] == parts[i];
    if i + 1 < |parts| {
      assert j[o + n..o + n + |sep|] == post[..|sep|];
    }
  }
}
