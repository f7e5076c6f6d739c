/** The parts of Go's `strings` package the core relies on. A Go string is a
    sequence of bytes; here every `char` of a `string` stands for one byte, so
    `|s|` is Go's `len(s)` and `s[i..j]` is Go's `s[i:j]`. */
module GoStrings {

  /** `strings.HasPrefix`. */
  predicate HasPrefix(s: string, prefix: string) {
    |prefix| <= |s| && s[..|prefix|] == prefix
  }

  /** `strings.HasSuffix`. */
  predicate HasSuffix(s: string, suffix: string) {
    |suffix| <= |s| && s[|s| - |suffix|..] == suffix
  }

  /** `strings.TrimPrefix`: drops `prefix` once when `s` starts with it. */
  function TrimPrefix(s: string, prefix: string): (r: string)
    ensures HasPrefix(s, prefix) ==> prefix + r == s
    ensures !HasPrefix(s, prefix) ==> r == s
  {
    if HasPrefix(s, prefix) then s[|prefix|..] else s
  }

  /** `strings.Contains`: `sub` occurs somewhere in `s`. */
  predicate Contains(s: string, sub: string)
    decreases |s|
  {
    HasPrefix(s, sub) || (|s| > 0 && Contains(s[1..], sub))
  }

  /** An occurrence of `sub` at position `i` makes `Contains` true. */
  lemma {:induction false} ContainsAt(s: string, sub: string, i: nat)
    requires i + |sub| <= |s| && s[i..i + |sub|] == sub
    ensures Contains(s, sub)
    decreases i
  {
    if i == 0 {
      assert s[..|sub|] == sub;
    } else {
      assert s[1..][i - 1..i - 1 + |sub|] == s[i..i + |sub|];
      ContainsAt(s[1..], sub, i - 1);
    }
  }

  /** `sub` occurs inside `a + sub + b`. */
  lemma ContainsInfix(a: string, sub: string, b: string)
    ensures Contains(a + sub + b, sub)
  {
    var s := a + sub + b;
    assert s[|a|..|a| + |sub|] == sub;
    ContainsAt(s, sub, |a|);
  }

  /** The white-space bytes of Go's `unicode.IsSpace` below 0x80. */
  predicate IsSpace(c: char) {
    c == ' ' || c == '\t' || c == '\n' || c == '\U{0B}' || c == '\U{0C}' || c == '\r'
  }

  predicate NoSpace(s: string) {
    forall i :: 0 <= i < |s| ==> !IsSpace(s[i])
  }

  /** `strings.TrimLeft(s, space)`. */
  function TrimLeftSpace(s: string): (r: string)
    ensures |r| <= |s| && r == s[|s| - |r|..]
    ensures |r| > 0 ==> !IsSpace(r[0])
    ensures forall i :: 0 <= i < |s| - |r| ==> IsSpace(s[i])
  {
    if |s| > 0 && IsSpace(s[0]) then TrimLeftSpace(s[1..]) else s
  }

  /** `strings.TrimRight(s, space)`. */
  function TrimRightSpace(s: string): (r: string)
    ensures |r| <= |s| && r == s[..|r|]
    ensures |r| > 0 ==> !IsSpace(r[|r| - 1])
    ensures forall i :: |r| <= i < |s| ==> IsSpace(s[i])
  {
    if |s| > 0 && IsSpace(s[|s| - 1]) then TrimRightSpace(s[..|s| - 1]) else s
  }

  /** `strings.TrimSpace`: leading and trailing white space removed. */
  function TrimSpace(s: string): (r: string)
    ensures |r| > 0 ==> !IsSpace(r[0]) && !IsSpace(r[|r| - 1])
    ensures |r| <= |s|
    ensures r == "" <==> forall i :: 0 <= i < |s| ==> IsSpace(s[i])
    ensures NoSpace(s) ==> r == s
  {
    var left := TrimLeftSpace(s);
    assert left == "" ==> forall i :: 0 <= i < |s| ==> IsSpace(s[i]);
    TrimRightSpace(left)
  }

  /** Every byte `TrimSpace` keeps is a byte of its input. */
  lemma TrimSpaceBytes(s: string)
    ensures forall j :: 0 <= j < |TrimSpace(s)| ==> TrimSpace(s)[j] in s
  {
    var left := TrimLeftSpace(s);
    var r := TrimRightSpace(left);
    assert r == TrimSpace(s);
    assert r == left[..|r|] && left == s[|s| - |left|..];
    forall j | 0 <= j < |r| ensures r[j] in s {
      assert r[j] == left[j];
      assert left[j] == s[|s| - |left| + j];
    }
  }

  /** `strings.Split(s, string(sep))` for a one-byte separator. */
  function Split(s: string, sep: char): (parts: seq<string>)
    ensures |parts| >= 1
    ensures forall i :: 0 <= i < |parts| ==> sep !in parts[i]
  {
    if |s| == 0 then [""]
    else
      var rest := Split(s[1..], sep);
      if s[0] == sep then [""] + rest
      else [[s[0]] + rest[0]] + rest[1..]
  }

  /** `strings.Join`. */
  function Join(parts: seq<string>, sep: string): string {
    if |parts| == 0 then ""
    else if |parts| == 1 then parts[0]
    else parts[0] + sep + Join(parts[1..], sep)
  }

  /** Splitting on a separator and joining with it again gives back the input. */
  lemma {:induction false} SplitJoin(s: string, sep: char)
    ensures Join(Split(s, sep), [sep]) == s
  {
    if |s| > 0 {
      var rest := Split(s[1..], sep);
      SplitJoin(s[1..], sep);
      if s[0] == sep {
        assert Split(s, sep) == [""] + rest;
        assert s == [sep] + s[1..];
      } else {
        var parts := [[s[0]] + rest[0]] + rest[1..];
        assert Split(s, sep) == parts;
        if |rest| == 1 {
          assert Join(parts, [sep]) == [s[0]] + rest[0];
        } else {
          assert parts[1..] == rest[1..];
          assert Join(rest, [sep]) == rest[0] + [sep] + Join(rest[1..], [sep]);
        }
      }
    }
  }

  /** A piece without the separator, then the separator: the piece comes
      first and the split goes on after it. */
  lemma {:induction false} SplitCons(a: string, sep: char, rest: string)
    requires sep !in a
    ensures Split(a + [sep] + rest, sep) == [a] + Split(rest, sep)
    decreases |a|
  {
    var s := a + [sep] + rest;
    if |a| == 0 {
      assert s[1..] == rest;
    } else {
      assert s[1..] == a[1..] + [sep] + rest;
      SplitCons(a[1..], sep, rest);
      assert [a[0]] + a[1..] == a;
    }
  }

  /** A string without the separator splits into itself. */
  lemma {:induction false} SplitWhole(a: string, sep: char)
    requires sep !in a
    ensures Split(a, sep) == [a]
    decreases |a|
  {
    if |a| > 0 {
      SplitWhole(a[1..], sep);
      assert [a[0]] + a[1..] == a;
    }
  }

  /** Joining pieces that do not contain the separator and splitting again
      gives back the pieces. */
  lemma {:induction false} JoinSplit(parts: seq<string>, sep: char)
    requires |parts| >= 1
    requires forall i :: 0 <= i < |parts| ==> sep !in parts[i]
    ensures Split(Join(parts, [sep]), sep) == parts
  {
    if |parts| == 1 {
      SplitWhole(parts[0], sep);
    } else {
      JoinSplit(parts[1..], sep);
      SplitCons(parts[0], sep, Join(parts[1..], [sep]));
    }
  }

  /** Every byte of every piece comes from the split string. */
  lemma {:induction false} SplitBytes(s: string, sep: char)
    ensures forall i, j :: 0 <= i < |Split(s, sep)| && 0 <= j < |Split(s, sep)[i]| ==> Split(s, sep)[i][j] in s
    decreases |s|
  {
    if |s| > 0 {
      SplitBytes(s[1..], sep);
      var rest := Split(s[1..], sep);
      var parts := Split(s, sep);
      forall i, j | 0 <= i < |parts| && 0 <= j < |parts[i]| ensures parts[i][j] in s {
        if s[0] == sep {
          if i > 0 { assert parts[i] == rest[i - 1]; assert rest[i - 1][j] in s[1..]; }
        } else if i == 0 {
          if j > 0 { assert parts[0][j] == rest[0][j - 1]; assert rest[0][j - 1] in s[1..]; }
        } else {
          assert parts[i] == rest[i]; assert rest[i][j] in s[1..];
        }
      }
    }
  }

  /** The longest prefix of `s` without white space. */
  function Word(s: string): (w: string)
    ensures |w| <= |s| && w == s[..|w|]
    ensures NoSpace(w)
    ensures |w| < |s| ==> IsSpace(s[|w|])
  {
    if |s| == 0 || IsSpace(s[0]) then "" else [s[0]] + Word(s[1..])
  }

  /** `strings.Fields`: the maximal runs of non-space bytes, in order. */
  function Fields(s: string): seq<string>
    decreases |s|
  {
    var t := TrimLeftSpace(s);
    if |t| == 0 then []
    else
      var w := Word(t);
      assert |w| > 0;
      [w] + Fields(t[|w|..])
  }

  lemma NoSpaceConcat(a: string, b: string)
    requires NoSpace(a) && NoSpace(b)
    ensures NoSpace(a + b)
  {
    assert forall i :: 0 <= i < |a + b| ==> (a + b)[i] == if i < |a| then a[i] else b[i - |a|];
  }

  /** A word without spaces followed by a space is the first field. */
  lemma FieldsCons(w: string, rest: string)
    requires |w| > 0 && NoSpace(w)
    ensures Fields(w + " " + rest) == [w] + Fields(rest)
  {
    var s := w + " " + rest;
    assert TrimLeftSpace(s) == s;
    WordOf(w, rest);
    assert s[|w|..] == " " + rest;
    assert TrimLeftSpace(" " + rest) == TrimLeftSpace(rest) by {
      assert (" " + rest)[1..] == rest;
    }
    assert Fields(" " + rest) == Fields(rest);
  }

  /** Two words, each followed by a space, are the first two fields. */
  lemma FieldsStartWith(a: string, b: string, rest: string)
    requires |a| > 0 && NoSpace(a) && |b| > 0 && NoSpace(b)
    ensures var fs := Fields(a + " " + (b + " " + rest));
      |fs| >= 2 && fs[0] == a && fs[1] == b
  {
    FieldsCons(a, b + " " + rest);
    FieldsCons(b, rest);
  }

  /** A word without spaces followed by a space is what `Word` returns. */
  lemma {:induction false} WordOf(w: string, rest: string)
    requires NoSpace(w)
    ensures Word(w + " " + rest) == w
    decreases |w|
  {
    var s := w + " " + rest;
    if |w| > 0 {
      assert s[1..] == w[1..] + " " + rest;
      WordOf(w[1..], rest);
      assert [w[0]] + w[1..] == w;
    }
  }

  /** A word without spaces and nothing after it is the only field. */
  lemma FieldsSingle(w: string)
    requires |w| > 0 && NoSpace(w)
    ensures Fields(w) == [w]
  {
    assert TrimLeftSpace(w) == w;
    WordAll(w);
    assert w[|w|..] == "";
  }

  lemma {:induction false} WordAll(w: string)
    requires NoSpace(w)
    ensures Word(w) == w
    decreases |w|
  {
    if |w| > 0 {
      WordAll(w[1..]);
      assert [w[0]] + w[1..] == w;
    }
  }
}
