/**
 * Identifier case conversion of src/simenv/assets/utils.py: `camelcase_to_snakecase` and
 * `snakecase_to_camelcase`. Each regular expression is modelled by a recursive function that
 * follows Python's leftmost, non-overlapping `re.sub` / `re.split` scan, and each conversion is
 * proved equal to a character-by-character reference definition from which its properties follow.
 * Characters are classified as ASCII, as the character classes `[A-Z]` and `[a-z]` are.
 */
module NameCase {

  predicate IsUpper(c: char) { 'A' <= c <= 'Z' }
  predicate IsLower(c: char) { 'a' <= c <= 'z' }
  predicate IsDigit(c: char) { '0' <= c <= '9' }

  function ToLower(c: char): (d: char)
    ensures !IsUpper(d)
    ensures IsUpper(c) <==> d != c
    ensures d == '_' <==> c == '_'
  {
    if IsUpper(c) then (c as int + 32) as char else c
  }

  function ToUpper(c: char): (d: char)
    ensures !IsLower(d)
    ensures IsLower(c) ==> IsUpper(d) && ToLower(d) == c
    ensures d == '_' <==> c == '_'
  {
    if IsLower(c) then (c as int - 32) as char else c
  }

  /** `str.lower`, on the ASCII letters. */
  function Lower(s: string): (r: string)
    ensures |r| == |s|
    ensures forall i :: 0 <= i < |s| ==> r[i] == ToLower(s[i])
  {
    if s == [] then [] else [ToLower(s[0])] + Lower(s[1..])
  }

  predicate NoUpper(s: string) {
    forall i :: 0 <= i < |s| ==> !IsUpper(s[i])
  }

  lemma LowerAppend(a: string, b: string)
    ensures Lower(a + b) == Lower(a) + Lower(b)
  {
  }

  lemma LowerOfNoUpper(s: string)
    requires NoUpper(s)
    ensures Lower(s) == s
  {
  }

  // ---------------------------------------------------------------------------------------
  // camelcase_to_snakecase
  // ---------------------------------------------------------------------------------------

  /** The length of the longest prefix of `s` made of upper-case letters. */
  function UpperPrefix(s: string): (k: nat)
    ensures k <= |s|
    ensures forall i :: 0 <= i < k ==> IsUpper(s[i])
    ensures k < |s| ==> !IsUpper(s[k])
  {
    if s == [] || !IsUpper(s[0]) then 0 else 1 + UpperPrefix(s[1..])
  }

  /**
   * `_uppercase_uppercase_re.sub(r"\1_\2", s)` with `([A-Z]+)([A-Z][a-z])`. A match at the front
   * exists exactly when the upper-case prefix has k >= 2 letters and a lower-case letter follows
   * it; backtracking then leaves the last capital to the second group, so the match is the whole
   * prefix plus that letter and `_` goes before the prefix's last capital. Otherwise the scan moves
   * on by one character.
   */
  function SubUpperUpper(s: string): string
  {
    if s == [] then []
    else
      var k := UpperPrefix(s);
      if 2 <= k < |s| && IsLower(s[k]) then s[..k - 1] + "_" + s[k - 1..k + 1] + SubUpperUpper(s[k + 1..])
      else [s[0]] + SubUpperUpper(s[1..])
  }

  /** `_lowercase_uppercase_re.sub(r"\1_\2", s)` with `([a-z\d])([A-Z])`: every match is two characters. */
  function SubLowerUpper(s: string): string
  {
    if |s| < 2 then s
    else if (IsLower(s[0]) || IsDigit(s[0])) && IsUpper(s[1]) then [s[0], '_', s[1]] + SubLowerUpper(s[2..])
    else [s[0]] + SubLowerUpper(s[1..])
  }

  /** Rule of the first regex: `s[0]` and `s[1]` are capitals and a lower-case letter follows. */
  predicate UpperUpperBreak(s: string) {
    |s| >= 3 && IsUpper(s[0]) && IsUpper(s[1]) && IsLower(s[2])
  }

  /** Rule of the second regex: a lower-case letter or digit is followed by a capital. */
  predicate LowerUpperBreak(s: string) {
    |s| >= 2 && (IsLower(s[0]) || IsDigit(s[0])) && IsUpper(s[1])
  }

  /** An underscore goes right after `s[0]`. */
  predicate BreakAfterFirst(s: string) {
    UpperUpperBreak(s) || LowerUpperBreak(s)
  }

  function Gap(b: bool): string {
    if b then "_" else ""
  }

  /** The first regex's effect, character by character. */
  function MarkUpperUpper(s: string): (r: string)
    ensures s != [] ==> r != [] && r[0] == s[0]
  {
    if s == [] then [] else [s[0]] + Gap(UpperUpperBreak(s)) + MarkUpperUpper(s[1..])
  }

  /** The second regex's effect, character by character. */
  function MarkLowerUpper(s: string): string {
    if s == [] then [] else [s[0]] + Gap(LowerUpperBreak(s)) + MarkLowerUpper(s[1..])
  }

  /** Reference definition: the input with `_` after every position where either rule applies. */
  function Marked(s: string): (r: string)
    ensures |s| <= |r| <= 2 * |s|
  {
    if s == [] then [] else [s[0]] + Gap(BreakAfterFirst(s)) + Marked(s[1..])
  }

  /** Scanning a run of k >= 2 capitals followed by a lower-case letter, from its j-th letter. */
  lemma {:induction false} MarkUpperUpperRun(s: string, k: nat, j: nat)
    requires 2 <= k < |s| && IsLower(s[k]) && forall i :: 0 <= i < k ==> IsUpper(s[i])
    requires j <= k - 2
    ensures MarkUpperUpper(s[j..]) == s[j..k - 1] + "_" + s[k - 1..k + 1] + MarkUpperUpper(s[k + 1..])
    decreases k - j
  {
    var t := s[j..];
    assert t[1..] == s[j + 1..];
    if j == k - 2 {
      var u := s[k - 1..];
      var v := s[k..];
      assert t[1..] == u && u[1..] == v && v[1..] == s[k + 1..];
      assert UpperUpperBreak(t) && !UpperUpperBreak(u) && !UpperUpperBreak(v);
      assert MarkUpperUpper(t) == [t[0]] + "_" + MarkUpperUpper(u);
      assert MarkUpperUpper(u) == [u[0]] + MarkUpperUpper(v);
      assert MarkUpperUpper(v) == [v[0]] + MarkUpperUpper(s[k + 1..]);
      assert s[j..k - 1] == [t[0]];
      assert s[k - 1..k + 1] == [u[0], v[0]];
    } else {
      assert !UpperUpperBreak(t) by { assert IsUpper(t[2]); }
      MarkUpperUpperRun(s, k, j + 1);
      assert s[j..k - 1] == [s[j]] + s[j + 1..k - 1];
    }
  }

  /** The first regex pass is its local rule. */
  lemma {:induction false} SubUpperUpperIsLocal(s: string)
    ensures SubUpperUpper(s) == MarkUpperUpper(s)
    decreases |s|
  {
    if s != [] {
      var k := UpperPrefix(s);
      if 2 <= k < |s| && IsLower(s[k]) {
        SubUpperUpperIsLocal(s[k + 1..]);
        MarkUpperUpperRun(s, k, 0);
        assert s[0..] == s;
      } else {
        assert !UpperUpperBreak(s);
        SubUpperUpperIsLocal(s[1..]);
      }
    }
  }

  /** The second regex pass is its local rule. */
  lemma {:induction false} SubLowerUpperIsLocal(s: string)
    ensures SubLowerUpper(s) == MarkLowerUpper(s)
    decreases |s|
  {
    if |s| < 2 {
      if |s| == 1 {
        assert s[1..] == [];
      }
    } else if LowerUpperBreak(s) {
      SubLowerUpperIsLocal(s[2..]);
      var t := s[1..];
      assert t[1..] == s[2..] && !LowerUpperBreak(t);
    } else {
      SubLowerUpperIsLocal(s[1..]);
    }
  }

  /** Running the second rule over the first rule's output applies both rules at once. */
  lemma {:induction false} MarksCompose(s: string)
    ensures MarkLowerUpper(MarkUpperUpper(s)) == Marked(s)
    decreases |s|
  {
    if s != [] {
      MarksCompose(s[1..]);
      if UpperUpperBreak(s) {
        MarkLowerUpperAfterBreak(s[0], MarkUpperUpper(s[1..]));
      } else {
        MarkLowerUpperNoBreak(s, MarkUpperUpper(s[1..]));
      }
    }
  }

  /** An underscore the first rule inserted shields both of its neighbours from the second rule. */
  lemma MarkLowerUpperAfterBreak(c: char, rest: string)
    ensures MarkLowerUpper([c] + "_" + rest) == [c] + "_" + MarkLowerUpper(rest)
  {
    var x := [c] + "_" + rest;
    assert !LowerUpperBreak(x) && x[1..] == "_" + rest;
    var y := "_" + rest;
    assert !LowerUpperBreak(y) && y[1..] == rest;
  }

  /** Where the first rule inserts nothing, the second rule sees the input's own first two characters. */
  lemma MarkLowerUpperNoBreak(s: string, rest: string)
    requires s != [] && !UpperUpperBreak(s)
    requires s[1..] != [] ==> rest != [] && rest[0] == s[1]
    requires s[1..] == [] ==> rest == []
    ensures MarkLowerUpper([s[0]] + rest) == [s[0]] + Gap(BreakAfterFirst(s)) + MarkLowerUpper(rest)
  {
    var x := [s[0]] + rest;
    assert x[1..] == rest;
    assert LowerUpperBreak(x) == LowerUpperBreak(s);
  }

  /** The two regex passes insert `_` exactly where the reference definition does. */
  lemma CamelPassesMark(s: string)
    ensures SubLowerUpper(SubUpperUpper(s)) == Marked(s)
  {
    SubUpperUpperIsLocal(s);
    SubLowerUpperIsLocal(MarkUpperUpper(s));
    MarksCompose(s);
  }

  /** `camelcase_to_snakecase`: the output has no capitals and at most twice the input's length. */
  function CamelToSnake(name: string): (r: string)
    ensures NoUpper(r)
    ensures |name| <= |r| <= 2 * |name|
  {
    CamelPassesMark(name);
    Lower(SubLowerUpper(SubUpperUpper(name)))
  }

  /** The conversion is the reference marking, lower-cased. */
  lemma CamelToSnakeIsLowerMarked(s: string)
    ensures CamelToSnake(s) == Lower(Marked(s))
  {
    CamelPassesMark(s);
  }

  /**
   * The conversion character by character: the first character lowered, then `_` exactly when a
   * lower-case letter or digit is followed by a capital, or two capitals by a lower-case letter,
   * then the rest converted the same way.
   */
  lemma CamelToSnakeStep(s: string)
    requires s != []
    ensures CamelToSnake(s) == [ToLower(s[0])] + Gap(BreakAfterFirst(s)) + CamelToSnake(s[1..])
  {
    CamelPassesMark(s);
    CamelPassesMark(s[1..]);
    LowerAppend([s[0]] + Gap(BreakAfterFirst(s)), Marked(s[1..]));
  }

  /** Removes every underscore. */
  function Strip(s: string): (r: string)
    ensures |r| <= |s|
    ensures forall i :: 0 <= i < |r| ==> r[i] != '_'
  {
    if s == [] then [] else (if s[0] == '_' then [] else [s[0]]) + Strip(s[1..])
  }

  lemma {:induction false} StripAppend(a: string, b: string)
    ensures Strip(a + b) == Strip(a) + Strip(b)
    decreases |a|
  {
    if a == [] {
      assert a + b == b;
    } else {
      var c := a + b;
      assert c[0] == a[0] && c[1..] == a[1..] + b;
      StripAppend(a[1..], b);
      assert Strip(c) == (if a[0] == '_' then [] else [a[0]]) + Strip(a[1..] + b);
    }
  }

  lemma {:induction false} StripMarked(s: string)
    ensures Strip(Marked(s)) == Strip(s)
    decreases |s|
  {
    if s != [] {
      StripMarked(s[1..]);
      StripAppend([s[0]] + Gap(BreakAfterFirst(s)), Marked(s[1..]));
      StripAppend([s[0]], Gap(BreakAfterFirst(s)));
    }
  }

  lemma {:induction false} StripLower(s: string)
    ensures Strip(Lower(s)) == Lower(Strip(s))
    decreases |s|
  {
    if s != [] {
      StripLower(s[1..]);
      assert Lower(s) == [ToLower(s[0])] + Lower(s[1..]);
      StripAppend([ToLower(s[0])], Lower(s[1..]));
      LowerAppend(if s[0] == '_' then [] else [s[0]], Strip(s[1..]));
    }
  }

  /** The conversion only inserts underscores: without them, output and lowered input agree. */
  lemma CamelToSnakeOnlyInserts(s: string)
    ensures Strip(CamelToSnake(s)) == Strip(Lower(s))
  {
    CamelPassesMark(s);
    StripLower(Marked(s));
    StripMarked(s);
    StripLower(s);
  }

  lemma {:induction false} MarkedNoUpper(s: string)
    requires NoUpper(s)
    ensures Marked(s) == s
    decreases |s|
  {
    if s != [] {
      MarkedNoUpper(s[1..]);
      assert !BreakAfterFirst(s) by {
        if |s| >= 2 { assert !IsUpper(s[1]); }
      }
    }
  }

  /** A string without capitals is already in snake case. */
  lemma CamelToSnakeFixesNoUpper(s: string)
    requires NoUpper(s)
    ensures CamelToSnake(s) == s
  {
    CamelPassesMark(s);
    MarkedNoUpper(s);
    LowerOfNoUpper(s);
  }

  /** Converting twice is converting once. */
  lemma CamelToSnakeIdempotent(s: string)
    ensures CamelToSnake(CamelToSnake(s)) == CamelToSnake(s)
  {
    CamelToSnakeFixesNoUpper(CamelToSnake(s));
  }

  lemma MarkedFooBar(s: string)
    requires s == "fooBar"
    ensures Marked(s) == "foo_Bar"
  {
    var x, u, v := s[..3], s[3..], s[4..];
    assert x + u == s && u[1..] == v;
    MarkedLowerTail(x, u);
    MarkedLowerTail(v, []);
    assert v + [] == v;
  }

  /** A capital after a lower-case letter starts a word: "fooBar" is "foo_bar". */
  lemma CamelToSnakeExample(name: string)
    requires name == "fooBar"
    ensures CamelToSnake(name) == "foo_bar"
  {
    CamelPassesMark(name);
    MarkedFooBar(name);
    assert Lower("foo_Bar") == "foo_bar";
  }

  lemma MarkedIoError(s: string)
    requires s == "IOError"
    ensures Marked(s) == "IO_Error"
  {
    var t1, t2, t3 := s[1..], s[2..], s[3..];
    assert t1[1..] == t2 && t2[1..] == t3;
    assert t3 == "rror";
    MarkedLowerTail(t3, []);
    assert t3 + [] == t3;
    assert !BreakAfterFirst(t2) && UpperUpperBreak(t1) && !BreakAfterFirst(s);
    assert Marked(t2) == [t2[0]] + "" + Marked(t3);
    assert Marked(t1) == [t1[0]] + "_" + Marked(t2);
    assert Marked(s) == [s[0]] + "" + Marked(t1);
  }

  /** The last capital of a run before a lower-case letter starts a word: "IOError" is "io_error". */
  lemma CamelToSnakeAcronym(name: string)
    requires name == "IOError"
    ensures CamelToSnake(name) == "io_error"
  {
    CamelToSnakeIsLowerMarked(name);
    MarkedIoError(name);
    LowerIoError(Marked(name));
  }

  lemma LowerIoError(v: string)
    requires v == "IO_Error"
    ensures Lower(v) == "io_error"
  {
    var r := Lower(v);
    assert r[0] == 'i' && r[1] == 'o' && r[2] == '_' && r[3] == 'e';
    assert r[4] == 'r' && r[5] == 'r' && r[6] == 'o' && r[7] == 'r';
  }

  // ---------------------------------------------------------------------------------------
  // snakecase_to_camelcase
  // ---------------------------------------------------------------------------------------

  /** `s[i]` is an underscore with no underscore on either side: what `(?<!_)_(?!_)` matches. */
  predicate IsolatedAt(s: string, i: nat)
    requires i < |s|
  {
    s[i] == '_' && (i == 0 || s[i - 1] != '_') && (i + 1 == |s| || s[i + 1] != '_')
  }

  /**
   * `_single_underscore_re.split(s)`, scanning from `i` with the current piece begun at `start`.
   * The look-around is evaluated against the whole string, as Python does.
   */
  function SplitIsolated(s: string, start: nat, i: nat): (r: seq<string>)
    requires start <= i <= |s|
    ensures |r| >= 1
    decreases |s| - i
  {
    if i == |s| then [s[start..]]
    else if IsolatedAt(s, i) then [s[start..i]] + SplitIsolated(s, i + 1, i + 1)
    else SplitIsolated(s, start, i + 1)
  }

  /** The end of the run of underscores that begins at `i`. */
  function RunEnd(p: string, i: nat): (e: nat)
    requires i <= |p|
    ensures i <= e <= |p|
    ensures forall j :: i <= j < e ==> p[j] == '_'
    ensures e < |p| ==> p[e] != '_'
    decreases |p| - i
  {
    if i < |p| && p[i] == '_' then RunEnd(p, i + 1) else i
  }

  /**
   * `_multiple_underscores_re.split(p)` with the capturing `(_{2,})`: every maximal run of two or
   * more underscores is a separator that is kept in the result. The scan only ever reaches the
   * first underscore of a run, so the greedy match is the whole run.
   */
  function SplitRuns(p: string, start: nat, i: nat): (r: seq<string>)
    requires start <= i <= |p|
    ensures |r| >= 1
    decreases |p| - i
  {
    if i == |p| then [p[start..]]
    else if i + 1 < |p| && p[i] == '_' && p[i + 1] == '_' then
      var e := RunEnd(p, i);
      [p[start..i], p[i..e]] + SplitRuns(p, e, e)
    else SplitRuns(p, start, i + 1)
  }

  /** The list comprehension of line 44 followed by `itertools.chain.from_iterable`. */
  function SplitEachRuns(ps: seq<string>): seq<string> {
    if ps == [] then [] else SplitRuns(ps[0], 0, 0) + SplitEachRuns(ps[1..])
  }

  /** `str.capitalize`, on the ASCII letters: first character upper, the rest lower. */
  function Capitalize(w: string): (r: string)
    ensures |r| == |w|
  {
    if w == [] then [] else [ToUpper(w[0])] + Lower(w[1..])
  }

  /** `"".join(n.capitalize() for n in ps if n != "")`. */
  function JoinCapitalized(ps: seq<string>): string {
    if ps == [] then "" else (if ps[0] != "" then Capitalize(ps[0]) else "") + JoinCapitalized(ps[1..])
  }

  /** What the reference definition makes of `s[i]`. */
  function CamelAt(s: string, i: nat): (r: string)
    requires i < |s|
    ensures |r| <= 1
  {
    if s[i] == '_' then (if IsolatedAt(s, i) then "" else "_")
    else if i == 0 || s[i - 1] == '_' then [ToUpper(s[i])]
    else [ToLower(s[i])]
  }

  /**
   * Reference definition of `snakecase_to_camelcase` on `s[i..j]`: an isolated underscore
   * disappears, an underscore next to another one stays, a character that starts the string or
   * follows an underscore is upper-cased and every other character is lower-cased.
   */
  function CamelFromTo(s: string, i: nat, j: nat): (r: string)
    requires i <= j <= |s|
    ensures |r| <= j - i
    decreases j - i
  {
    if i == j then "" else CamelAt(s, i) + CamelFromTo(s, i + 1, j)
  }

  lemma {:induction false} CamelFromToSplit(s: string, i: nat, j: nat, k: nat)
    requires i <= j <= k <= |s|
    ensures CamelFromTo(s, i, k) == CamelFromTo(s, i, j) + CamelFromTo(s, j, k)
    decreases j - i
  {
    if i < j {
      CamelFromToSplit(s, i + 1, j, k);
    }
  }

  lemma {:induction false} JoinCapitalizedAppend(a: seq<string>, b: seq<string>)
    ensures JoinCapitalized(a + b) == JoinCapitalized(a) + JoinCapitalized(b)
    decreases |a|
  {
    if a == [] {
      assert a + b == b;
    } else {
      var c := a + b;
      assert c[0] == a[0] && c[1..] == a[1..] + b;
      JoinCapitalizedAppend(a[1..], b);
      assert JoinCapitalized(c) == (if a[0] != "" then Capitalize(a[0]) else "") + JoinCapitalized(a[1..] + b);
    }
  }

  /** A stretch with no underscore that does not start a word is lower-cased. */
  lemma {:induction false} LowerStretch(s: string, x: nat, y: nat)
    requires 0 < x <= y <= |s| && s[x - 1] != '_'
    requires forall j :: x <= j < y ==> s[j] != '_'
    ensures CamelFromTo(s, x, y) == Lower(s[x..y])
    decreases y - x
  {
    if x < y {
      LowerStretch(s, x + 1, y);
      assert s[x..y][1..] == s[x + 1..y];
    }
  }

  /** A word, a stretch with no underscore that starts the string or follows an underscore, is capitalised. */
  lemma WordStretch(s: string, x: nat, y: nat)
    requires x <= y <= |s| && (x == 0 || s[x - 1] == '_')
    requires forall j :: x <= j < y ==> s[j] != '_'
    ensures CamelFromTo(s, x, y) == Capitalize(s[x..y])
  {
    if x < y {
      var w := s[x..y];
      LowerStretch(s, x + 1, y);
      assert w[0] == s[x] && w[1..] == s[x + 1..y];
      assert CamelAt(s, x) == [ToUpper(s[x])];
      assert CamelFromTo(s, x, y) == CamelAt(s, x) + CamelFromTo(s, x + 1, y);
      assert Capitalize(w) == [ToUpper(w[0])] + Lower(w[1..]);
    }
  }

  /** A stretch of underscores none of which is isolated is kept verbatim. */
  lemma {:induction false} UnderscoreStretch(s: string, x: nat, y: nat)
    requires x <= y <= |s|
    requires forall j :: x <= j < y ==> s[j] == '_' && !IsolatedAt(s, j)
    ensures CamelFromTo(s, x, y) == s[x..y]
    decreases y - x
  {
    if x < y {
      UnderscoreStretch(s, x + 1, y);
      assert s[x..y] == [s[x]] + s[x + 1..y];
    }
  }

  lemma CapitalizeUnderscores(w: string)
    requires forall j :: 0 <= j < |w| ==> w[j] == '_'
    ensures Capitalize(w) == w
  {
    if w != [] {
      assert Lower(w[1..]) == w[1..];
    }
  }

  /** A piece of the first split: `s[a..b]` lies between isolated underscores and holds none itself. */
  predicate IsPiece(s: string, a: nat, b: nat) {
    && a <= b <= |s|
    && (a == 0 || IsolatedAt(s, a - 1))
    && (b == |s| || IsolatedAt(s, b))
    && (forall j :: a <= j < b ==> !IsolatedAt(s, j))
  }

  /** No underscore of `p` is isolated. */
  predicate NoIsolated(p: string) {
    forall j :: 0 <= j < |p| ==> !IsolatedAt(p, j)
  }

  /** Inside a piece, the reference definition reads the same in the piece as in the whole string. */
  lemma PieceLocalAt(s: string, a: nat, b: nat, k: nat)
    requires IsPiece(s, a, b) && k < b - a
    ensures !IsolatedAt(s[a..b], k)
    ensures CamelAt(s, a + k) == CamelAt(s[a..b], k)
  {
    var p := s[a..b];
    assert p[k] == s[a + k];
    assert !IsolatedAt(s, a + k);
    if k > 0 {
      assert p[k - 1] == s[a + k - 1];
    }
    if k + 1 < |p| {
      assert p[k + 1] == s[a + k + 1];
    }
  }

  /** A piece holds no isolated underscore of its own. */
  lemma PieceNoIsolated(s: string, a: nat, b: nat)
    requires IsPiece(s, a, b)
    ensures NoIsolated(s[a..b])
  {
    forall k | 0 <= k < b - a ensures !IsolatedAt(s[a..b], k) {
      PieceLocalAt(s, a, b, k);
    }
  }

  /** The reference output of a piece's stretch, from `a + x` on, is that of the piece alone. */
  lemma PieceLocal(s: string, a: nat, b: nat, x: nat)
    requires IsPiece(s, a, b) && x <= b - a
    ensures CamelFromTo(s, a + x, b) == CamelFromTo(s[a..b], x, b - a)
  {
    var p := s[a..b];
    forall k | x <= k < b - a ensures CamelAt(s, a + k) == CamelAt(p, k) {
      PieceLocalAt(s, a, b, k);
    }
    CamelFromToAgree(s, p, a, x, b - a);
  }

  /** Two strings whose reference definitions agree position by position have equal reference outputs. */
  lemma {:induction false} CamelFromToAgree(s: string, p: string, a: nat, x: nat, n: nat)
    requires x <= n <= |p| && a + n <= |s|
    requires forall k :: x <= k < n ==> CamelAt(s, a + k) == CamelAt(p, k)
    ensures CamelFromTo(s, a + x, a + n) == CamelFromTo(p, x, n)
    decreases n - x
  {
    if x < n {
      CamelFromToAgree(s, p, a, x + 1, n);
      assert CamelFromTo(s, a + x, a + n) == CamelAt(s, a + x) + CamelFromTo(s, a + x + 1, a + n);
    }
  }

  /**
   * Where the second split's scan over a piece `p` may stand: the current sub-piece begun at
   * `start` starts a word, and no underscore has been passed since.
   */
  predicate RunScan(p: string, start: nat, i: nat) {
    && start <= i <= |p|
    && (start > 0 ==> p[start - 1] == '_' && (start == |p| || p[start] != '_'))
    && (forall j :: start <= j < i ==> p[j] != '_')
  }

  /** Capitalising a run of underscores changes nothing. */
  lemma SeparatorRunCapitalized(p: string, i: nat, e: nat)
    requires i <= |p| && e == RunEnd(p, i)
    ensures Capitalize(p[i..e]) == p[i..e]
  {
    var run := p[i..e];
    assert forall j :: 0 <= j < |run| ==> run[j] == '_' by {
      forall j | 0 <= j < |run| ensures run[j] == '_' { assert run[j] == p[i + j]; }
    }
    CapitalizeUnderscores(run);
  }

  /** The word and the run after it, together, as `CamelFromTo` writes them. */
  lemma CamelAcrossSeparator(s: string, x: nat, y: nat, z: nat, word: string, run: string)
    requires x <= y <= z <= |s|
    requires CamelFromTo(s, x, y) == Capitalize(word) && CamelFromTo(s, y, z) == run
    ensures CamelFromTo(s, x, z) == Capitalize(word) + run
  {
    CamelFromToSplit(s, x, y, z);
  }

  /** Joining a single piece. */
  lemma JoinCapitalizedOne(w: string)
    ensures JoinCapitalized([w]) == Capitalize(w)
  {
    assert [w][1..] == [];
  }

  /** Joining a word and a run in front of more pieces. */
  lemma JoinCapitalizedTwo(word: string, run: string, rest: seq<string>)
    ensures JoinCapitalized([word, run] + rest) == Capitalize(word) + Capitalize(run) + JoinCapitalized(rest)
  {
    JoinCapitalizedAppend([word, run], rest);
    assert [word, run][1..] == [run];
    assert JoinCapitalized([run]) == (if run != "" then Capitalize(run) else "") + JoinCapitalized([]);
  }

  /** After a run of two or more underscores the scan resumes, past the run, at the start of a word. */
  lemma SeparatorResumes(p: string, start: nat, i: nat, e: nat)
    requires RunScan(p, start, i)
    requires i + 1 < |p| && p[i] == '_' && p[i + 1] == '_'
    requires e == RunEnd(p, i)
    ensures i < e && RunScan(p, e, e)
  {
    assert p[e - 1] == '_';
  }

  /**
   * At a run of two or more underscores the second split emits the word so far and the run:
   * what `CamelFromTo` writes for that stretch.
   */
  lemma SplitRunsSeparator(p: string, start: nat, i: nat, e: nat)
    requires NoIsolated(p) && RunScan(p, start, i)
    requires i + 1 < |p| && p[i] == '_' && p[i + 1] == '_'
    requires e == RunEnd(p, i)
    ensures JoinCapitalized(SplitRuns(p, start, i)) ==
      CamelFromTo(p, start, e) + JoinCapitalized(SplitRuns(p, e, e))
  {
    WordStretch(p, start, i);
    UnderscoreStretch(p, i, e);
    SeparatorRunCapitalized(p, i, e);
    assert SplitRuns(p, start, i) == [p[start..i], p[i..e]] + SplitRuns(p, e, e);
    JoinCapitalizedTwo(p[start..i], p[i..e], SplitRuns(p, e, e));
    CamelAcrossSeparator(p, start, i, e, p[start..i], p[i..e]);
  }

  /** The separator case of the induction below, given the result for the rest of the piece. */
  lemma SplitRunsSeparatorStep(p: string, start: nat, i: nat, e: nat)
    requires NoIsolated(p) && RunScan(p, start, i)
    requires i + 1 < |p| && p[i] == '_' && p[i + 1] == '_'
    requires e == RunEnd(p, i)
    requires JoinCapitalized(SplitRuns(p, e, e)) == CamelFromTo(p, e, |p|)
    ensures JoinCapitalized(SplitRuns(p, start, i)) == CamelFromTo(p, start, |p|)
  {
    SplitRunsSeparator(p, start, i, e);
    CamelFromToSplit(p, start, e, |p|);
  }

  /** Where no separator starts, the scan moves past a letter and the sub-piece goes on. */
  lemma SplitRunsLetter(p: string, start: nat, i: nat)
    requires NoIsolated(p) && RunScan(p, start, i) && i < |p|
    requires !(i + 1 < |p| && p[i] == '_' && p[i + 1] == '_')
    ensures RunScan(p, start, i + 1)
    ensures SplitRuns(p, start, i) == SplitRuns(p, start, i + 1)
  {
    assert !IsolatedAt(p, i);
  }

  /** At the end of the piece the second split emits the word it has scanned. */
  lemma SplitRunsAtEnd(p: string, start: nat)
    requires RunScan(p, start, |p|)
    ensures JoinCapitalized(SplitRuns(p, start, |p|)) == CamelFromTo(p, start, |p|)
  {
    WordStretch(p, start, |p|);
    assert SplitRuns(p, start, |p|) == [p[start..]];
    assert p[start..] == p[start..|p|];
    JoinCapitalizedOne(p[start..]);
  }

  /**
   * The second split over a piece `p` of the first split, from the sub-piece begun at `start`
   * and scanned up to `i`, produces the reference output of `p[start..]`.
   */
  lemma {:induction false} SplitRunsMatches(p: string, start: nat, i: nat)
    requires NoIsolated(p) && RunScan(p, start, i)
    ensures JoinCapitalized(SplitRuns(p, start, i)) == CamelFromTo(p, start, |p|)
    decreases |p| - i
  {
    if i == |p| {
      SplitRunsAtEnd(p, start);
    } else if i + 1 < |p| && p[i] == '_' && p[i + 1] == '_' {
      var e := RunEnd(p, i);
      SeparatorResumes(p, start, i, e);
      SplitRunsMatches(p, e, e);
      SplitRunsSeparatorStep(p, start, i, e);
    } else {
      SplitRunsLetter(p, start, i);
      SplitRunsMatches(p, start, i + 1);
    }
  }

  /** The second split over one piece of the first produces the piece's reference output. */
  lemma PieceMatches(s: string, a: nat, b: nat)
    requires IsPiece(s, a, b)
    ensures JoinCapitalized(SplitRuns(s[a..b], 0, 0)) == CamelFromTo(s, a, b)
  {
    PieceNoIsolated(s, a, b);
    SplitRunsMatches(s[a..b], 0, 0);
    PieceLocal(s, a, b, 0);
  }

  /** The last piece of the first split. */
  lemma SplitIsolatedAtEnd(s: string, start: nat)
    requires IsPiece(s, start, |s|)
    ensures JoinCapitalized(SplitEachRuns(SplitIsolated(s, start, |s|))) == CamelFromTo(s, start, |s|)
  {
    var p := s[start..];
    assert SplitIsolated(s, start, |s|) == [p];
    assert [p][1..] == [];
    assert SplitEachRuns([p]) == SplitRuns(p, 0, 0) + [];
    assert SplitRuns(p, 0, 0) + [] == SplitRuns(p, 0, 0);
    assert p == s[start..|s|];
    PieceMatches(s, start, |s|);
  }

  /** The isolated underscore after a piece contributes nothing. */
  lemma IsolatedDropped(s: string, start: nat, i: nat)
    requires start <= i < |s| && IsolatedAt(s, i)
    ensures CamelFromTo(s, start, i + 1) == CamelFromTo(s, start, i)
  {
    CamelFromToSplit(s, start, i, i + 1);
    assert CamelFromTo(s, i, i + 1) == CamelAt(s, i) + CamelFromTo(s, i + 1, i + 1);
    assert CamelFromTo(s, i, i + 1) == "";
    var w := CamelFromTo(s, start, i);
    assert w + "" == w;
  }

  /** A piece cut off by the isolated underscore at `i`, and that underscore, in front of the pieces after it. */
  lemma SplitIsolatedCut(s: string, start: nat, i: nat)
    requires IsPiece(s, start, i) && i < |s|
    ensures JoinCapitalized(SplitEachRuns(SplitIsolated(s, start, i))) ==
      CamelFromTo(s, start, i + 1) + JoinCapitalized(SplitEachRuns(SplitIsolated(s, i + 1, i + 1)))
  {
    var p, rest := s[start..i], SplitIsolated(s, i + 1, i + 1);
    assert SplitIsolated(s, start, i) == [p] + rest;
    assert ([p] + rest)[1..] == rest;
    assert SplitEachRuns([p] + rest) == SplitRuns(p, 0, 0) + SplitEachRuns(rest);
    JoinCapitalizedAppend(SplitRuns(p, 0, 0), SplitEachRuns(rest));
    PieceMatches(s, start, i);
    IsolatedDropped(s, start, i);
  }

  /** The first split, from the piece begun at `start` and scanned up to `i`, feeds the second. */
  lemma {:induction false} SplitIsolatedMatches(s: string, start: nat, i: nat)
    requires start <= i <= |s|
    requires start == 0 || IsolatedAt(s, start - 1)
    requires forall j :: start <= j < i ==> !IsolatedAt(s, j)
    ensures JoinCapitalized(SplitEachRuns(SplitIsolated(s, start, i))) == CamelFromTo(s, start, |s|)
    decreases |s| - i
  {
    if i == |s| {
      SplitIsolatedAtEnd(s, start);
    } else if IsolatedAt(s, i) {
      SplitIsolatedCut(s, start, i);
      SplitIsolatedMatches(s, i + 1, i + 1);
      CamelFromToSplit(s, start, i + 1, |s|);
    } else {
      assert SplitIsolated(s, start, i) == SplitIsolated(s, start, i + 1);
      SplitIsolatedMatches(s, start, i + 1);
    }
  }

  /** `snakecase_to_camelcase`: it never lengthens the input and agrees with the reference definition. */
  function SnakeToCamel(name: string): (r: string)
    ensures r == CamelFromTo(name, 0, |name|)
    ensures |r| <= |name|
  {
    SplitIsolatedMatches(name, 0, 0);
    JoinCapitalized(SplitEachRuns(SplitIsolated(name, 0, 0)))
  }

  /** An isolated underscore disappears; an underscore next to another underscore is kept. */
  lemma SnakeToCamelUnderscores(s: string, i: nat)
    requires i < |s| && s[i] == '_'
    ensures SnakeToCamel(s) == CamelFromTo(s, 0, i) + (if IsolatedAt(s, i) then "" else "_") + CamelFromTo(s, i + 1, |s|)
  {
    CamelFromToSplit(s, 0, i, |s|);
  }

  /** Each word is capitalised: upper-case at its start, lower-case after. */
  lemma SnakeToCamelLetters(s: string, i: nat)
    requires i < |s| && s[i] != '_'
    ensures SnakeToCamel(s) == CamelFromTo(s, 0, i) +
      [if i == 0 || s[i - 1] == '_' then ToUpper(s[i]) else ToLower(s[i])] + CamelFromTo(s, i + 1, |s|)
  {
    CamelFromToSplit(s, 0, i, |s|);
  }

  /** "a__b" keeps its double underscore: "A__B". */
  lemma SnakeToCamelDoubleUnderscore()
    ensures SnakeToCamel("a__b") == "A__B"
  {
    var s := "a__b";
    assert IsolatedAt(s, 1) == false && IsolatedAt(s, 2) == false;
    assert CamelFromTo(s, 3, 4) == "B";
    assert CamelFromTo(s, 2, 4) == "_B";
    assert CamelFromTo(s, 1, 4) == "__B";
  }

  // ---------------------------------------------------------------------------------------
  // Round trip
  // ---------------------------------------------------------------------------------------

  /** A snake-case segment: two or more lower-case letters. */
  predicate SnakeWord(w: string) {
    |w| >= 2 && forall i :: 0 <= i < |w| ==> IsLower(w[i])
  }

  /** The segments joined by single underscores. */
  function JoinSnake(ws: seq<string>): string
    requires |ws| >= 1
  {
    if |ws| == 1 then ws[0] else ws[0] + "_" + JoinSnake(ws[1..])
  }

  /** The segments capitalised and concatenated. */
  function JoinCamel(ws: seq<string>): string
    requires |ws| >= 1
  {
    if |ws| == 1 then Capitalize(ws[0]) else Capitalize(ws[0]) + JoinCamel(ws[1..])
  }

  /** The segments capitalised and joined by single underscores. */
  function JoinCamelSnake(ws: seq<string>): string
    requires |ws| >= 1
  {
    if |ws| == 1 then Capitalize(ws[0]) else Capitalize(ws[0]) + "_" + JoinCamelSnake(ws[1..])
  }

  /** The reference output of a suffix that starts a word is the suffix's own reference output. */
  lemma {:induction false} CamelFromToShift(s: string, x: nat, i: nat)
    requires 0 < x < |s| && s[x - 1] == '_' && s[x] != '_'
    requires i <= |s| - x
    ensures CamelFromTo(s, x + i, |s|) == CamelFromTo(s[x..], i, |s| - x)
    decreases |s| - x - i
  {
    if i < |s| - x {
      CamelFromToShift(s, x, i + 1);
      assert CamelAt(s, x + i) == CamelAt(s[x..], i);
    }
  }

  lemma SnakeToCamelWord(w: string)
    requires |w| >= 1 && forall i :: 0 <= i < |w| ==> w[i] != '_'
    ensures SnakeToCamel(w) == Capitalize(w)
  {
    WordStretch(w, 0, |w|);
    assert w[0..|w|] == w;
  }

  /** A word, one underscore and a text that starts a word: the underscore vanishes. */
  lemma SnakeToCamelCons(w: string, t: string)
    requires |w| >= 1 && forall i :: 0 <= i < |w| ==> w[i] != '_'
    requires |t| >= 1 && t[0] != '_'
    ensures SnakeToCamel(w + "_" + t) == Capitalize(w) + SnakeToCamel(t)
  {
    var s := w + "_" + t;
    var n := |w|;
    assert s[n] == '_' && s[n - 1] == w[n - 1] && n + 1 < |s| && s[n + 1] == t[0];
    assert forall j :: 0 <= j < n ==> s[j] != '_' by {
      forall j | 0 <= j < n ensures s[j] != '_' { assert s[j] == w[j]; }
    }
    SnakeToCamelAtWordEnd(s, n);
    assert s[..n] == w && s[n + 1..] == t;
  }

  /** The same on one string: the word before an underscore, then the text after it. */
  lemma SnakeToCamelAtWordEnd(s: string, n: nat)
    requires 0 < n && n + 1 < |s| && s[n] == '_' && s[n + 1] != '_'
    requires forall j :: 0 <= j < n ==> s[j] != '_'
    ensures SnakeToCamel(s) == Capitalize(s[..n]) + SnakeToCamel(s[n + 1..])
  {
    assert IsolatedAt(s, n);
    WordStretch(s, 0, n);
    assert s[0..n] == s[..n];
    IsolatedDropped(s, 0, n);
    CamelFromToSplit(s, 0, n + 1, |s|);
    CamelFromToShift(s, n + 1, 0);
  }

  /** A single underscore between words vanishes: "foo_bar" is "FooBar". */
  lemma SnakeToCamelExample(name: string)
    requires name == "foo_bar"
    ensures SnakeToCamel(name) == "FooBar"
  {
    var w, t := name[..3], name[4..];
    assert w == "foo" && t == "bar" && w + "_" + t == name;
    assert forall i :: 0 <= i < |w| ==> w[i] != '_';
    SnakeToCamelCons(w, t);
    SnakeToCamelWord(t);
    assert Capitalize("foo") == "Foo";
    assert Capitalize("bar") == "Bar";
  }

  /** Each word is capitalised, so an upper-case word is lower-cased after its first letter. */
  lemma SnakeToCamelAcronym()
    ensures SnakeToCamel("HTTP_ok") == "HttpOk"
  {
    var w, t := "HTTP", "ok";
    assert forall i :: 0 <= i < |w| ==> w[i] != '_';
    SnakeToCamelCons(w, t);
    assert Lower("TTP") == "ttp";
    assert Capitalize(w) == "Http";
    assert Capitalize(t) == "Ok";
    SnakeToCamelWord(t);
    assert w + "_" + t == "HTTP_ok";
  }

  /** A leading single underscore vanishes: "_foo" is "Foo". */
  lemma SnakeToCamelLeadingUnderscore()
    ensures SnakeToCamel("_foo") == "Foo"
  {
    var s := "_foo";
    assert IsolatedAt(s, 0);
    assert CamelFromTo(s, 0, 4) == CamelAt(s, 0) + CamelFromTo(s, 1, 4);
    CamelFromToShift(s, 1, 0);
    assert s[1..] == "foo";
    SnakeToCamelWord("foo");
  }

  lemma {:induction false} SnakeToCamelJoin(ws: seq<string>)
    requires |ws| >= 1 && forall k :: 0 <= k < |ws| ==> SnakeWord(ws[k])
    ensures SnakeToCamel(JoinSnake(ws)) == JoinCamel(ws)
    decreases |ws|
  {
    if |ws| == 1 {
      SnakeToCamelWord(ws[0]);
    } else {
      SnakeToCamelJoin(ws[1..]);
      assert |JoinSnake(ws[1..])| >= 1 && JoinSnake(ws[1..])[0] == ws[1][0] by {
        JoinSnakeHead(ws[1..]);
      }
      SnakeToCamelCons(ws[0], JoinSnake(ws[1..]));
    }
  }

  lemma {:induction false} JoinSnakeHead(ws: seq<string>)
    requires |ws| >= 1 && |ws[0]| >= 1
    ensures |JoinSnake(ws)| >= 1 && JoinSnake(ws)[0] == ws[0][0]
  {
  }

  /** A lower-case letter followed by nothing or by a capital. */
  lemma MarkedLowerLast(c: char, u: string)
    requires IsLower(c) && (u == [] || IsUpper(u[0]))
    ensures Marked([c] + u) == [c] + Gap(u != []) + Marked(u)
  {
    var s := [c] + u;
    assert s[0] == c && s[1..] == u;
    assert BreakAfterFirst(s) == (u != []);
  }

  /** Two lower-case letters in front: no underscore after the first. */
  lemma MarkedLowerFront(x: string, u: string)
    requires |x| >= 2 && IsLower(x[0]) && IsLower(x[1])
    ensures Marked(x + u) == [x[0]] + Marked(x[1..] + u)
  {
    var s := x + u;
    assert s[0] == x[0] && s[1] == x[1] && s[1..] == x[1..] + u;
    assert !BreakAfterFirst(s);
  }

  /** A lower-case tail, followed by nothing or by a capital, is marked at its end only. */
  lemma {:induction false} MarkedLowerTail(x: string, u: string)
    requires |x| >= 1 && forall i :: 0 <= i < |x| ==> IsLower(x[i])
    requires u == [] || IsUpper(u[0])
    ensures Marked(x + u) == x + Gap(u != []) + Marked(u)
    decreases |x|
  {
    if |x| == 1 {
      assert x == [x[0]];
      MarkedLowerLast(x[0], u);
    } else {
      assert IsLower(x[0]) && IsLower(x[1]);
      MarkedLowerFront(x, u);
      MarkedLowerTail(x[1..], u);
      assert x == [x[0]] + x[1..];
    }
  }

  /** A capitalised segment, followed by nothing or by a capitalised segment, is marked at its end only. */
  lemma MarkedCapitalized(w: string, u: string)
    requires SnakeWord(w)
    requires u == [] || (|u| >= 2 && IsUpper(u[0]) && IsLower(u[1]))
    ensures Marked(Capitalize(w) + u) == Capitalize(w) + Gap(u != []) + Marked(u)
  {
    var c := Capitalize(w);
    var x := Lower(w[1..]);
    assert c == [ToUpper(w[0])] + x;
    LowerOfNoUpper(w[1..]);
    assert (c + u)[1..] == x + u;
    assert !BreakAfterFirst(c + u);
    MarkedLowerTail(x, u);
  }

  lemma {:induction false} MarkedJoinCamel(ws: seq<string>)
    requires |ws| >= 1 && forall k :: 0 <= k < |ws| ==> SnakeWord(ws[k])
    ensures |JoinCamel(ws)| >= 2 && IsUpper(JoinCamel(ws)[0]) && IsLower(JoinCamel(ws)[1])
    ensures Marked(JoinCamel(ws)) == JoinCamelSnake(ws)
    decreases |ws|
  {
    LowerOfNoUpper(ws[0][1..]);
    if |ws| == 1 {
      MarkedCapitalized(ws[0], []);
      assert Capitalize(ws[0]) + [] == Capitalize(ws[0]);
    } else {
      MarkedJoinCamel(ws[1..]);
      MarkedCapitalized(ws[0], JoinCamel(ws[1..]));
    }
  }

  lemma {:induction false} LowerJoinCamelSnake(ws: seq<string>)
    requires |ws| >= 1 && forall k :: 0 <= k < |ws| ==> SnakeWord(ws[k])
    ensures Lower(JoinCamelSnake(ws)) == JoinSnake(ws)
    decreases |ws|
  {
    var w := ws[0];
    LowerOfNoUpper(w[1..]);
    assert Lower(Capitalize(w)) == w by {
      LowerAppend([ToUpper(w[0])], w[1..]);
      assert Capitalize(w) == [ToUpper(w[0])] + w[1..];
      LowerOfNoUpper(w[1..]);
      assert w == [w[0]] + w[1..];
    }
    if |ws| > 1 {
      LowerJoinCamelSnake(ws[1..]);
      LowerAppend(Capitalize(w) + "_", JoinCamelSnake(ws[1..]));
      LowerAppend(Capitalize(w), "_");
    }
  }

  /**
   * Segments of two or more lower-case letters joined by single underscores survive a conversion
   * to camel case and back.
   */
  lemma SnakeCamelRoundTrip(ws: seq<string>)
    requires |ws| >= 1 && forall k :: 0 <= k < |ws| ==> SnakeWord(ws[k])
    ensures CamelToSnake(SnakeToCamel(JoinSnake(ws))) == JoinSnake(ws)
  {
    SnakeToCamelJoin(ws);
    CamelPassesMark(JoinCamel(ws));
    MarkedJoinCamel(ws);
    LowerJoinCamelSnake(ws);
  }
}
