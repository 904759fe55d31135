/**
 * String helpers shared by the three components: JavaScript's notion of white
 * space (`\s` and `String.prototype.trim`), ASCII case folding, a leftmost
 * regular-expression search, joining, filtering and single-character edits.
 *
 * Strings are sequences of Unicode scalar values; JavaScript counts UTF-16 code
 * units, so lengths agree only for text in the Basic Multilingual Plane.
 */
module Text {

  datatype Option<+T> = None | Some(value: T)

  /** The characters that JavaScript's `\s` matches and that `trim()` removes. */
  predicate IsSpace(c: char) {
    || c == ' ' || c == '\t' || c == '\n' || c == '\r' || c == '\U{B}' || c == '\U{C}'
    || c == '\U{A0}' || c == '\U{1680}' || ('\U{2000}' <= c <= '\U{200A}')
    || c == '\U{2028}' || c == '\U{2029}' || c == '\U{202F}' || c == '\U{205F}'
    || c == '\U{3000}' || c == '\U{FEFF}'
  }

  predicate IsNonSpace(c: char) {
    !IsSpace(c)
  }

  /** `\d` of a JavaScript regular expression without the `u` flag. */
  predicate IsDigit(c: char) {
    '0' <= c <= '9'
  }

  /** The characters that `.` does not match in a JavaScript regular expression. */
  predicate IsLineTerminator(c: char) {
    c == '\n' || c == '\r' || c == '\U{2028}' || c == '\U{2029}'
  }

  predicate AllDigits(s: string) {
    forall i :: 0 <= i < |s| ==> IsDigit(s[i])
  }

  predicate NoDoubleSpace(s: string) {
    forall i :: 0 <= i < |s| - 1 ==> !(IsSpace(s[i]) && IsSpace(s[i + 1]))
  }

  // ---------------------------------------------------------------------------
  // trim()

  function TrimStart(s: string): (r: string)
    ensures |r| <= |s|
  {
    if s != [] && IsSpace(s[0]) then TrimStart(s[1..]) else s
  }

  function TrimEnd(s: string): (r: string)
    ensures |r| <= |s|
  {
    if s != [] && IsSpace(s[|s| - 1]) then TrimEnd(s[..|s| - 1]) else s
  }

  /** `s.trim()`. */
  function Trim(s: string): (r: string)
    ensures |r| <= |s|
  {
    TrimEnd(TrimStart(s))
  }

  /** `TrimStart` drops a prefix made of white space and stops at the first other character. */
  lemma {:induction false} TrimStartShape(s: string)
    ensures var r := TrimStart(s);
      && r == s[|s| - |r|..]
      && (r == [] || !IsSpace(r[0]))
      && forall i :: 0 <= i < |s| - |r| ==> IsSpace(s[i])
  {
    if s != [] && IsSpace(s[0]) {
      TrimStartShape(s[1..]);
    }
  }

  /** `TrimEnd` drops a suffix made of white space and stops at the last other character. */
  lemma {:induction false} TrimEndShape(s: string)
    ensures var r := TrimEnd(s);
      && r == s[..|r|]
      && (r == [] || !IsSpace(r[|r| - 1]))
      && forall i :: |r| <= i < |s| ==> IsSpace(s[i])
  {
    if s != [] && IsSpace(s[|s| - 1]) {
      TrimEndShape(s[..|s| - 1]);
    }
  }

  /**
   * `trim()` keeps a contiguous slice of `s` that neither starts nor ends with white
   * space, and everything it drops is white space.
   */
  lemma TrimShape(s: string)
    ensures var k := |s| - |TrimStart(s)|; k + |Trim(s)| <= |s| && Trim(s) == s[k..k + |Trim(s)|]
    ensures Trim(s) == [] || (!IsSpace(Trim(s)[0]) && !IsSpace(Trim(s)[|Trim(s)| - 1]))
  {
    var a := TrimStart(s);
    TrimStartShape(s);
    TrimEndShape(a);
    var k := |s| - |a|;
    assert Trim(s) == s[k..k + |Trim(s)|];
  }

  /** Trimming keeps every character that is not white space, in order. */
  lemma TrimKeepsNonSpace(s: string)
    ensures Filter(Trim(s), IsNonSpace) == Filter(s, IsNonSpace)
  {
    TrimStartKeepsNonSpace(s);
    TrimEndKeepsNonSpace(TrimStart(s));
  }

  lemma TrimStartKeepsNonSpace(s: string)
    ensures Filter(TrimStart(s), IsNonSpace) == Filter(s, IsNonSpace)
  {
    TrimStartShape(s);
    var a := TrimStart(s);
    var k := |s| - |a|;
    var lead := s[..k];
    assert s == lead + a;
    assert forall i :: 0 <= i < |lead| ==> !IsNonSpace(lead[i]);
    FilterAllRejected(lead, IsNonSpace);
    FilterConcat(lead, a, IsNonSpace);
  }

  lemma TrimEndKeepsNonSpace(s: string)
    ensures Filter(TrimEnd(s), IsNonSpace) == Filter(s, IsNonSpace)
  {
    TrimEndShape(s);
    var b := TrimEnd(s);
    var tail := s[|b|..];
    assert s == b + tail;
    assert forall i :: 0 <= i < |tail| ==> !IsNonSpace(tail[i]);
    FilterAllRejected(tail, IsNonSpace);
    FilterConcat(b, tail, IsNonSpace);
  }

  // ---------------------------------------------------------------------------
  // Case folding

  /** `toLowerCase()` on the ASCII letters; other characters are kept. */
  function LowerChar(c: char): char {
    if 'A' <= c <= 'Z' then (c as int + 32) as char else c
  }

  function ToLower(s: string): string {
    seq(|s|, i requires 0 <= i < |s| => LowerChar(s[i]))
  }

  /** `lit` (given in lower case) occurs at position `i` of `s`, as a JavaScript regular expression with the `i` flag matches it. */
  predicate HasAtIgnoreCase(s: string, i: nat, lit: string) {
    i + |lit| <= |s| && ToLower(s[i..i + |lit|]) == lit
  }

  predicate HasAt(s: string, i: nat, lit: string) {
    i + |lit| <= |s| && s[i..i + |lit|] == lit
  }

  // ---------------------------------------------------------------------------
  // Leftmost search

  /** The number of characters from position `i` on that satisfy `p`: a greedy `p*`. */
  function RunLength(s: string, i: nat, p: char -> bool): (n: nat)
    requires i <= |s|
    decreases |s| - i
    ensures i + n <= |s|
    ensures forall j :: i <= j < i + n ==> p(s[j])
    ensures i + n == |s| || !p(s[i + n])
  {
    if i < |s| && p(s[i]) then 1 + RunLength(s, i + 1, p) else 0
  }

  /** A run that ends inside `a` ends at the same place whatever follows `a`. */
  lemma {:induction false} RunLengthWithin(a: string, t: string, i: nat, p: char -> bool)
    requires i < |a| && !p(a[|a| - 1])
    ensures RunLength(a + t, i, p) == RunLength(a, i, p)
    decreases |a| - i
  {
    assert (a + t)[i] == a[i];
    if p(a[i]) {
      RunLengthWithin(a, t, i + 1, p);
    }
  }

  /**
   * The leftmost position at or after `from` where the matcher `m` succeeds, with the
   * length it matched: how a JavaScript regular expression without the `g` flag
   * chooses its match.
   */
  function FindFirst(s: string, from: nat, m: (string, nat) -> Option<nat>): (r: Option<(nat, nat)>)
    requires from <= |s|
    decreases |s| - from
    ensures r.Some? ==> from <= r.value.0 <= |s| && m(s, r.value.0) == Some(r.value.1)
    ensures r.Some? ==> forall j :: from <= j < r.value.0 ==> m(s, j).None?
    ensures r.None? ==> forall j :: from <= j <= |s| ==> m(s, j).None?
  {
    match m(s, from)
    case Some(n) => Some((from, n))
    case None => if from == |s| then None else FindFirst(s, from + 1, m)
  }

  /** A match at `p` with none before it is the one `FindFirst` returns. */
  lemma FindFirstIsLeftmost(s: string, m: (string, nat) -> Option<nat>, p: nat)
    requires p <= |s| && m(s, p).Some?
    requires forall j :: 0 <= j < p ==> m(s, j).None?
    ensures FindFirst(s, 0, m) == Some((p, m(s, p).value))
  {
    var f := FindFirst(s, 0, m);
    assert f.Some? && f.value.0 == p;
  }

  /** The position of the first element of `xs` that `ok` accepts: a first-valid-wins chain. */
  function FirstIndex<T>(xs: seq<T>, ok: T -> bool): (r: Option<nat>)
    ensures r.Some? ==> r.value < |xs| && ok(xs[r.value])
    ensures r.Some? ==> forall j :: 0 <= j < r.value ==> !ok(xs[j])
    ensures r.None? ==> forall j :: 0 <= j < |xs| ==> !ok(xs[j])
  {
    if xs == [] then None
    else if ok(xs[0]) then Some(0)
    else match FirstIndex(xs[1..], ok)
      case None => None
      case Some(k) => Some(k + 1)
  }

  // ---------------------------------------------------------------------------
  // Joining, filtering and editing

  /** `xs.join(sep)`. */
  function Join(xs: seq<string>, sep: string): string {
    if |xs| == 0 then ""
    else if |xs| == 1 then xs[0]
    else xs[0] + sep + Join(xs[1..], sep)
  }

  /** `xs.join(sep)` lists the elements in order, `sep` between neighbours. */
  lemma {:induction false} JoinInOrder(xs: seq<string>, sep: string)
    requires |xs| >= 2
    ensures Join(xs, sep) == Join(xs[..|xs| - 1], sep) + sep + xs[|xs| - 1]
  {
    if |xs| > 2 {
      JoinInOrder(xs[1..], sep);
      assert xs[1..][..|xs| - 2] == xs[..|xs| - 1][1..];
    }
  }

  /** JavaScript's `a || b` on strings: `a` unless it is empty. */
  function Or(a: string, b: string): string {
    if a != "" then a else b
  }

  /** The characters of `s` that `p` accepts, in order. */
  function Filter(s: string, p: char -> bool): (r: string)
    ensures |r| <= |s|
    ensures forall i :: 0 <= i < |r| ==> p(r[i])
  {
    if s == [] then [] else (if p(s[0]) then [s[0]] else []) + Filter(s[1..], p)
  }

  lemma {:induction false} FilterConcat(a: string, b: string, p: char -> bool)
    ensures Filter(a + b, p) == Filter(a, p) + Filter(b, p)
  {
    if a == [] {
      assert a + b == b;
    } else {
      assert (a + b)[0] == a[0];
      assert (a + b)[1..] == a[1..] + b;
      FilterConcat(a[1..], b, p);
    }
  }

  lemma {:induction false} FilterAllRejected(a: string, p: char -> bool)
    requires forall i :: 0 <= i < |a| ==> !p(a[i])
    ensures Filter(a, p) == []
  {
    if a != [] {
      FilterAllRejected(a[1..], p);
    }
  }

  lemma {:induction false} FilterAllAccepted(a: string, p: char -> bool)
    requires forall i :: 0 <= i < |a| ==> p(a[i])
    ensures Filter(a, p) == a
  {
    if a != [] {
      FilterAllAccepted(a[1..], p);
    }
  }

  /** The position of the first `c` in `s`. */
  function IndexOf(s: string, c: char): (i: nat)
    requires c in s
    ensures i < |s| && s[i] == c && c !in s[..i]
  {
    if s[0] == c then 0 else 1 + IndexOf(s[1..], c)
  }

  /** `s.replace(c, '')` for a one-character string `c`: only the first occurrence goes. */
  function RemoveFirst(s: string, c: char): (r: string)
    ensures c !in s ==> r == s
    ensures c in s ==> |r| == |s| - 1 && r == s[..IndexOf(s, c)] + s[IndexOf(s, c) + 1..]
  {
    if c in s then s[..IndexOf(s, c)] + s[IndexOf(s, c) + 1..] else s
  }

  /** `s.replace(/x/g, y)` for single characters `x` and `y`. */
  function ReplaceChar(s: string, x: char, y: char): (r: string)
    ensures |r| == |s|
    ensures x != y ==> x !in r
    ensures forall i :: 0 <= i < |s| && s[i] != x ==> r[i] == s[i]
    ensures forall i :: 0 <= i < |s| && s[i] == x ==> r[i] == y
  {
    if s == [] then [] else [if s[0] == x then y else s[0]] + ReplaceChar(s[1..], x, y)
  }

  /** A character survives `Filter` exactly when it occurs and `p` accepts it. */
  lemma {:induction false} FilterMember(s: string, p: char -> bool, c: char)
    ensures c in Filter(s, p) <==> c in s && p(c)
  {
    if s != [] {
      FilterMember(s[1..], p, c);
      assert s == [s[0]] + s[1..];
    }
  }

  /** Dropping a prefix of the first part of a concatenation. */
  lemma DropAppend<T>(a: seq<T>, t: seq<T>, n: nat)
    requires n <= |a|
    ensures (a + t)[n..] == a[n..] + t
  {
  }

  /** Sequence concatenation regroups freely; the solver does not always see it unaided. */
  lemma AppendAssoc<T>(x: seq<T>, y: seq<T>, z: seq<T>)
    ensures x + (y + z) == x + y + z
  {
  }

  /** The strings of `xs` run together: `xs.join('')`. */
  function Concat(xs: seq<string>): string {
    if xs == [] then [] else xs[0] + Concat(xs[1..])
  }

  // ---------------------------------------------------------------------------
  // Words

  /** `s` is non-empty and starts with a character other than white space. */
  predicate StartsWord(s: string) {
    s != [] && !IsSpace(s[0])
  }

  /**
   * The words of `s`: its maximal runs of characters other than white space, in
   * order. White space only separates words, so how much of it lies between two
   * words, and of which kind, does not matter.
   */
  function Words(s: string): (r: seq<string>)
    ensures StartsWord(s) ==> r != []
  {
    if s == [] then []
    else if IsSpace(s[0]) then Words(s[1..])
    else
      var rest := Words(s[1..]);
      if StartsWord(s[1..]) then [[s[0]] + rest[0]] + rest[1..] else [[s[0]]] + rest
  }

  /** Every word is non-empty and holds no white space. */
  lemma {:induction false} WordsAreWords(s: string)
    ensures forall w :: w in Words(s) ==> w != [] && forall c :: c in w ==> IsNonSpace(c)
  {
    if s != [] {
      WordsAreWords(s[1..]);
      var rest := Words(s[1..]);
      if !IsSpace(s[0]) && StartsWord(s[1..]) {
        var first := [s[0]] + rest[0];
        assert rest[0] in rest;
        assert forall c :: c in first ==> c == s[0] || c in rest[0];
        assert forall w :: w in rest[1..] ==> w in rest;
        assert Words(s) == [first] + rest[1..];
      }
    }
  }

  /** Putting a character in front changes the words only through the first word and whether the rest starts one. */
  lemma WordsConsCongruent(c: char, x: string, y: string)
    requires Words(x) == Words(y) && StartsWord(x) == StartsWord(y)
    ensures Words([c] + x) == Words([c] + y)
  {
    assert ([c] + x)[1..] == x && ([c] + y)[1..] == y;
  }

  /** The words of `[c] + x`, given the words `w` of `x` and whether `x` starts a word. */
  function WordsCons(c: char, w: seq<string>, starts: bool): seq<string>
    requires starts ==> w != []
  {
    if IsSpace(c) then w
    else if starts then [[c] + w[0]] + w[1..]
    else [[c]] + w
  }

  lemma WordsOfCons(c: char, x: string)
    ensures Words([c] + x) == WordsCons(c, Words(x), StartsWord(x))
  {
    assert ([c] + x)[1..] == x;
  }

  /** Words that follow the first one are untouched by a character in front. */
  lemma WordsConsAppend(c: char, w: seq<string>, starts: bool, tail: seq<string>)
    requires starts ==> w != []
    ensures WordsCons(c, w + tail, starts) == WordsCons(c, w, starts) + tail
  {
    if !IsSpace(c) && starts {
      assert (w + tail)[0] == w[0] && (w + tail)[1..] == w[1..] + tail;
    }
  }

  /** Leading white space carries no words. */
  lemma {:induction false} WordsDropLeadingSpace(s: string, n: nat)
    requires n <= |s|
    requires forall j :: 0 <= j < n ==> IsSpace(s[j])
    ensures Words(s[n..]) == Words(s)
  {
    if n > 0 {
      WordsDropLeadingSpace(s[1..], n - 1);
      assert s[1..][n - 1..] == s[n..];
    }
  }

  /** A non-empty run of white space between two strings separates their words. */
  lemma {:induction false} WordsSpaceSplit(a: string, sep: string, b: string)
    requires sep != [] && forall j :: 0 <= j < |sep| ==> IsSpace(sep[j])
    ensures Words(a + sep + b) == Words(a) + Words(b)
  {
    if a == [] {
      assert a + sep + b == sep + b;
      WordsDropLeadingSpace(sep + b, |sep|);
      assert (sep + b)[|sep|..] == b;
    } else {
      var t := a[1..];
      WordsSpaceSplit(t, sep, b);
      assert a + sep + b == [a[0]] + (t + sep + b) && a == [a[0]] + t;
      assert StartsWord(t + sep + b) == StartsWord(t);
      WordsOfCons(a[0], t + sep + b);
      WordsOfCons(a[0], t);
      WordsConsAppend(a[0], Words(t), StartsWord(t), Words(b));
    }
  }

  /** Trailing white space carries no words. */
  lemma WordsDropTrailingSpace(a: string, t: string)
    requires forall j :: 0 <= j < |t| ==> IsSpace(t[j])
    ensures Words(a + t) == Words(a)
  {
    if t != [] {
      WordsSpaceSplit(a, t, []);
      assert a + t + [] == a + t;
    } else {
      assert a + t == a;
    }
  }

  /** `trim()` keeps every word. */
  lemma WordsTrim(s: string)
    ensures Words(Trim(s)) == Words(s)
  {
    TrimStartShape(s);
    var a := TrimStart(s);
    WordsDropLeadingSpace(s, |s| - |a|);
    TrimEndShape(a);
    var b := TrimEnd(a);
    assert a == b + a[|b|..];
    WordsDropTrailingSpace(b, a[|b|..]);
  }

  /** The words of each string of `xs`, in order. */
  function WordsOfAll(xs: seq<string>): seq<string> {
    if xs == [] then [] else Words(xs[0]) + WordsOfAll(xs[1..])
  }

  /** Joining with a non-empty white-space separator keeps each string's words apart. */
  lemma {:induction false} WordsJoin(xs: seq<string>, sep: string)
    requires sep != [] && forall j :: 0 <= j < |sep| ==> IsSpace(sep[j])
    ensures Words(Join(xs, sep)) == WordsOfAll(xs)
  {
    if |xs| == 1 {
      assert WordsOfAll(xs) == Words(xs[0]) + WordsOfAll([]);
    } else if |xs| > 1 {
      WordsJoin(xs[1..], sep);
      WordsSpaceSplit(xs[0], sep, Join(xs[1..], sep));
    }
  }

  /** Joining with a separator that `p` rejects keeps the same accepted characters as running the pieces together. */
  lemma {:induction false} JoinFilter(xs: seq<string>, sep: string, p: char -> bool)
    requires Filter(sep, p) == []
    ensures Filter(Join(xs, sep), p) == Filter(Concat(xs), p)
  {
    if |xs| == 1 {
      assert Concat(xs) == xs[0] + Concat([]);
      assert Concat(xs) == xs[0];
    } else if |xs| > 1 {
      JoinFilter(xs[1..], sep, p);
      FilterConcat(xs[0] + sep, Join(xs[1..], sep), p);
      FilterConcat(xs[0], sep, p);
      FilterConcat(xs[0], Concat(xs[1..]), p);
    }
  }
}

