/** String operations the editor and the server are built from: counting a
    character, `split` on one character, `join` with a separator, and
    replacing every occurrence of one character by a string. */
module Text {

  /** Number of occurrences of `c` in `s`. */
  function Count(s: string, c: char): (n: nat)
    ensures n <= |s|
    ensures n == 0 <==> c !in s
  {
    if s == [] then 0 else (if s[0] == c then 1 else 0) + Count(s[1..], c)
  }

  lemma {:induction false} CountAppend(a: string, b: string, c: char)
    ensures Count(a + b, c) == Count(a, c) + Count(b, c)
  {
    if a == [] {
      assert a + b == b;
    } else {
      assert (a + b)[1..] == a[1..] + b;
      CountAppend(a[1..], b, c);
    }
  }

  /** JavaScript's `s.split(sep)` for a one-character separator: the pieces
      between the separators, in order; never empty (`"".split(sep)` is `[""]`). */
  function Split(s: string, sep: char): (parts: seq<string>)
    ensures |parts| == Count(s, sep) + 1
    ensures forall i :: 0 <= i < |parts| ==> sep !in parts[i]
  {
    if s == [] then [""]
    else if s[0] == sep then [""] + Split(s[1..], sep)
    else
      var rest := Split(s[1..], sep);
      [[s[0]] + rest[0]] + rest[1..]
  }

  /** JavaScript's `parts.join(sep)` (also Python's `sep.join(parts)`). */
  function Join(parts: seq<string>, sep: string): string
  {
    if |parts| == 0 then ""
    else if |parts| == 1 then parts[0]
    else parts[0] + sep + Join(parts[1..], sep)
  }

  /** Every occurrence of `c` in `s` replaced by `repl` (Python's `str.replace`
      with a one-character pattern). */
  function ReplaceChar(s: string, c: char, repl: string): (r: string)
    ensures c !in repl ==> c !in r
  {
    if s == [] then ""
    else (if s[0] == c then repl else [s[0]]) + ReplaceChar(s[1..], c, repl)
  }

  lemma {:induction false} JoinExtendFirst(x: char, first: string, rest: seq<string>, sep: string)
    ensures Join([[x] + first] + rest, sep) == [x] + Join([first] + rest, sep)
  {
    if |rest| == 0 {
    } else {
      assert ([[x] + first] + rest)[1..] == rest;
      assert ([first] + rest)[1..] == rest;
    }
  }

  /** Splitting on `c` and joining with `sep` replaces each `c` by `sep`. */
  lemma {:induction false} JoinSplit(s: string, c: char, sep: string)
    ensures Join(Split(s, c), sep) == ReplaceChar(s, c, sep)
  {
    if s == [] {
    } else if s[0] == c {
      JoinSplit(s[1..], c, sep);
      var rest := Split(s[1..], c);
      assert ([""] + rest)[1..] == rest;
    } else {
      JoinSplit(s[1..], c, sep);
      var rest := Split(s[1..], c);
      JoinExtendFirst(s[0], rest[0], rest[1..], sep);
      assert [rest[0]] + rest[1..] == rest;
    }
  }

  lemma {:induction false} ReplaceSelf(s: string, c: char)
    ensures ReplaceChar(s, c, [c]) == s
  {
    if s != [] {
      ReplaceSelf(s[1..], c);
      assert s == [s[0]] + s[1..];
    }
  }

  /** `split` followed by `join` with the same character gives the input back. */
  lemma SplitRoundTrip(s: string, c: char)
    ensures Join(Split(s, c), [c]) == s
  {
    JoinSplit(s, c, [c]);
    ReplaceSelf(s, c);
  }

  /** Joining parts that do not contain `c` with `c`, then splitting on `c`,
      gives the parts back. */
  lemma {:induction false} JoinRoundTrip(parts: seq<string>, c: char)
    requires |parts| > 0
    requires forall i :: 0 <= i < |parts| ==> c !in parts[i]
    ensures Split(Join(parts, [c]), c) == parts
  {
    if |parts| == 1 {
      SplitAround(parts[0], "", c);
      assert parts[0] + "" == parts[0];
    } else {
      JoinRoundTrip(parts[1..], c);
      var tail := Join(parts[1..], [c]);
      assert Join(parts, [c]) == parts[0] + ([c] + tail);
      var after := Split([c] + tail, c);
      assert after == [""] + parts[1..] by {
        assert ([c] + tail)[0] == c;
        assert ([c] + tail)[1..] == tail;
      }
      SplitAround(parts[0], [c] + tail, c);
      assert after[0] == "" && after[1..] == parts[1..];
      assert parts[0] + "" == parts[0];
      assert [parts[0]] + parts[1..] == parts;
    }
  }

  /** Splitting `w + rest` where `w` holds no `c` extends the first piece of
      `rest`'s split by `w`. */
  lemma {:induction false} SplitAround(w: string, rest: string, c: char)
    requires c !in w
    ensures Split(w + rest, c) == [w + Split(rest, c)[0]] + Split(rest, c)[1..]
  {
    var tail := Split(rest, c);
    if w == [] {
      assert w + rest == rest;
      assert w + tail[0] == tail[0];
      assert [tail[0]] + tail[1..] == tail;
    } else {
      SplitAround(w[1..], rest, c);
      SplitStep(w, rest, c);
      var inner := Split(w[1..] + rest, c);
      HeadTail(w[1..] + tail[0], tail[1..]);
      var first := [w[0]] + inner[0];
      assert first == w + tail[0] by {
        assert inner[0] == w[1..] + tail[0];
        assert [w[0]] + (w[1..] + tail[0]) == ([w[0]] + w[1..]) + tail[0];
        assert [w[0]] + w[1..] == w;
      }
      assert inner[1..] == tail[1..];
      assert Split(w + rest, c) == [first] + inner[1..];
    }
  }

  lemma HeadTail<T>(x: T, y: seq<T>)
    ensures ([x] + y)[0] == x && ([x] + y)[1..] == y
  {
  }

  /** One step of `Split` on `w + rest` when `w` starts with a non-separator. */
  lemma SplitStep(w: string, rest: string, c: char)
    requires w != [] && w[0] != c
    ensures Split(w + rest, c) == [[w[0]] + Split(w[1..] + rest, c)[0]] + Split(w[1..] + rest, c)[1..]
  {
    assert (w + rest)[0] == w[0];
    assert (w + rest)[1..] == w[1..] + rest;
  }

  /** Python's text-mode read with universal newlines (`newline=None`):
      each `"\r\n"`, and each `"\r"` not followed by `"\n"`, is read as
      `"\n"`. */
  function UniversalNewlines(s: string): (r: string)
    ensures '\r' !in r
    ensures |r| <= |s|
  {
    if s == [] then ""
    else if s[0] == '\r' then
      "\n" + UniversalNewlines(if |s| > 1 && s[1] == '\n' then s[2..] else s[1..])
    else [s[0]] + UniversalNewlines(s[1..])
  }

  /** Text without a carriage return is read back as written. */
  lemma {:induction false} NewlinesKept(s: string)
    requires '\r' !in s
    ensures UniversalNewlines(s) == s
  {
    if s != [] {
      assert s[0] in s;
      assert forall x :: x in s[1..] ==> x in s;
      NewlinesKept(s[1..]);
      assert [s[0]] + s[1..] == s;
    }
  }

  /** Reading a file twice in text mode changes it once. */
  lemma NewlinesIdempotent(s: string)
    ensures UniversalNewlines(UniversalNewlines(s)) == UniversalNewlines(s)
  {
    NewlinesKept(UniversalNewlines(s));
  }

  lemma NewlinesExample()
    ensures UniversalNewlines("x\r\ny\rz") == "x\ny\nz"
  {
    assert "x\r\ny\rz"[1..] == "\r\ny\rz";
    assert "\r\ny\rz"[2..] == "y\rz";
    assert "y\rz"[1..] == "\rz";
    assert "\rz"[1..] == "z";
  }

  /** Replacing each `c` by a string holding exactly one `c` keeps the number
      of `c`. */
  lemma {:induction false} CountReplace(s: string, c: char, repl: string)
    requires Count(repl, c) == 1
    ensures Count(ReplaceChar(s, c, repl), c) == Count(s, c)
  {
    if s != [] {
      var head := if s[0] == c then repl else [s[0]];
      CountReplace(s[1..], c, repl);
      CountAppend(head, ReplaceChar(s[1..], c, repl), c);
      assert Count([s[0]], c) == if s[0] == c then 1 else 0 by {
        assert [s[0]][1..] == [];
      }
    }
  }

  /** Replacing a character that does not occur changes nothing. */
  lemma {:induction false} ReplaceAbsent(s: string, c: char, repl: string)
    requires c !in s
    ensures ReplaceChar(s, c, repl) == s
  {
    if s != [] {
      ReplaceAbsent(s[1..], c, repl);
      assert s == [s[0]] + s[1..];
    }
  }

  /** A character in neither the parts nor the separator is not in the join. */
  lemma {:induction false} JoinAvoids(parts: seq<string>, sep: string, c: char)
    requires forall i :: 0 <= i < |parts| ==> c !in parts[i]
    requires c !in sep
    ensures c !in Join(parts, sep)
  {
    if |parts| > 1 {
      JoinAvoids(parts[1..], sep, c);
    }
  }

  /** A join starts with its first part. */
  lemma JoinStartsWithFirst(parts: seq<string>, sep: string)
    requires |parts| > 0
    ensures |Join(parts, sep)| >= |parts[0]| && Join(parts, sep)[..|parts[0]|] == parts[0]
  {
  }
}
