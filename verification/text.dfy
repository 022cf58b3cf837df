/** Python string primitives the decoders are built from: `str.isspace`,
    `strip`/`lstrip`, `split(sep)`, `split()` on whitespace, `splitlines()`
    and `sep.join(parts)`. Strings are already-decoded `seq<char>`. */
module Text {
  import opened Wrappers

  // ---------------------------------------------------------------- whitespace

  /** `str.isspace` for one character (the whitespace `strip()` and `split()` use). */
  predicate IsSpace(c: char) {
    || c == ' ' || c == '\t' || c == '\n' || c == '\r'
    || c == '\U{0B}' || c == '\U{0C}'
    || ('\U{1C}' <= c <= '\U{1F}')
    || c == '\U{85}' || c == '\U{A0}' || c == '\U{1680}'
    || ('\U{2000}' <= c <= '\U{200A}')
    || c == '\U{2028}' || c == '\U{2029}' || c == '\U{202F}' || c == '\U{205F}' || c == '\U{3000}'
  }

  predicate AllSpace(s: string) {
    forall i :: 0 <= i < |s| ==> IsSpace(s[i])
  }

  predicate NoSpace(s: string) {
    forall i :: 0 <= i < |s| ==> !IsSpace(s[i])
  }

  /** Neither the first nor the last character is whitespace. */
  predicate Trimmed(s: string) {
    s == [] || (!IsSpace(s[0]) && !IsSpace(s[|s| - 1]))
  }

  /** `s.lstrip()`: the suffix left after dropping leading whitespace. */
  function LStrip(s: string): (r: string)
    ensures |r| <= |s| && r == s[|s| - |r|..]
    ensures AllSpace(s[..|s| - |r|])
    ensures r == [] || !IsSpace(r[0])
    decreases |s|
  {
    if |s| > 0 && IsSpace(s[0]) then
      var r := LStrip(s[1..]);
      DropFirstSpace(s, r);
      r
    else s
  }

  /** Dropping a leading space keeps the suffixes of `s` and the spaces in
      front of them. */
  lemma {:induction false} DropFirstSpace(s: string, r: string)
    requires |s| > 0 && IsSpace(s[0])
    requires |r| <= |s| - 1 && r == s[1..][|s| - 1 - |r|..] && AllSpace(s[1..][..|s| - 1 - |r|])
    ensures r == s[|s| - |r|..] && AllSpace(s[..|s| - |r|])
  {
    var n := |s| - |r|;
    forall i | 0 <= i < n
      ensures IsSpace(s[..n][i])
    {
      if i > 0 {
        assert s[..n][i] == s[1..][..n - 1][i - 1];
      }
    }
  }

  /** `s.rstrip()`: the prefix left after dropping trailing whitespace. */
  function RStrip(s: string): (r: string)
    ensures |r| <= |s| && r == s[..|r|]
    ensures AllSpace(s[|r|..])
    ensures r == [] || !IsSpace(r[|r| - 1])
    decreases |s|
  {
    if |s| > 0 && IsSpace(s[|s| - 1]) then
      var r := RStrip(s[..|s| - 1]);
      DropLastSpace(s, r);
      r
    else s
  }

  /** Dropping a trailing space keeps the prefixes of `s` and the spaces
      after them. */
  lemma {:induction false} DropLastSpace(s: string, r: string)
    requires |s| > 0 && IsSpace(s[|s| - 1])
    requires |r| <= |s| - 1 && r == s[..|s| - 1][..|r|] && AllSpace(s[..|s| - 1][|r|..])
    ensures r == s[..|r|] && AllSpace(s[|r|..])
  {
    var t := s[|r|..];
    forall i | 0 <= i < |t|
      ensures IsSpace(t[i])
    {
      if i < |t| - 1 {
        assert t[i] == s[..|s| - 1][|r|..][i];
      }
    }
  }

  /** `r` is the piece of `s` that starts at `k`, and everything around it
      is whitespace. */
  predicate Middle(s: string, k: int, r: string) {
    0 <= k && k + |r| <= |s| && r == s[k..k + |r|] && AllSpace(s[..k]) && AllSpace(s[k + |r|..])
  }

  /** `s.strip()`: the middle of `s` with whitespace cut from both ends. */
  function Strip(s: string): (r: string)
    ensures Middle(s, |s| - |LStrip(s)|, r)
    ensures Trimmed(r)
  {
    StripParts(s, LStrip(s), RStrip(LStrip(s)));
    RStrip(LStrip(s))
  }

  /** Where the pieces of `strip` sit in the original text. */
  lemma {:induction false} StripParts(s: string, l: string, r: string)
    requires l == LStrip(s) && r == RStrip(l)
    ensures Middle(s, |s| - |l|, r)
    ensures Trimmed(r)
  {
    var k := |s| - |l|;
    assert r == [] || r[0] == l[0];
    assert r == s[k..k + |r|] by {
      assert l == s[k..];
      assert r == l[..|r|];
    }
    assert l[|r|..] == s[k + |r|..];
  }

  lemma {:induction false} StripTrimmed(s: string)
    requires Trimmed(s)
    ensures Strip(s) == s
  {
  }

  /** Stripping leaves nothing exactly when the string is all whitespace. */
  lemma {:induction false} StripEmpty(s: string)
    ensures Strip(s) == [] <==> AllSpace(s)
  {
    var k := |s| - |LStrip(s)|;
    if Strip(s) == [] {
      assert s == s[..k] + s[k..];
    }
  }

  /** Whitespace after a trimmed text is all that `strip` removes. */
  lemma {:induction false} StripTrailing(a: string, sp: string)
    requires a != [] && Trimmed(a) && AllSpace(sp)
    ensures Strip(a + sp) == a
  {
    var s := a + sp;
    assert s[0] == a[0];
    NoLeadingSpace(s);
    assert s[..|a|] == a;
  }

  // ---------------------------------------------------------------- bytes.strip()

  /** The whitespace Python 2 `str.strip()` removes from a byte string:
      space, tab, newline, carriage return, vertical tab and form feed. */
  predicate IsByteSpace(c: char) {
    c == ' ' || c == '\t' || c == '\n' || c == '\r' || c == '\U{0B}' || c == '\U{0C}'
  }

  /** Neither the first nor the last character is ASCII whitespace. */
  predicate ByteTrimmed(s: string) {
    s == [] || (!IsByteSpace(s[0]) && !IsByteSpace(s[|s| - 1]))
  }

  /** The number of ASCII whitespace characters `s` starts with. */
  function ByteLead(s: string): (n: nat)
    ensures n <= |s|
    ensures forall i :: 0 <= i < n ==> IsByteSpace(s[i])
    ensures n == |s| || !IsByteSpace(s[n])
    decreases |s|
  {
    if |s| > 0 && IsByteSpace(s[0]) then
      assert forall i :: 1 <= i < |s| ==> s[i] == s[1..][i - 1];
      1 + ByteLead(s[1..])
    else 0
  }

  /** The number of ASCII whitespace characters `s` ends with. */
  function ByteTail(s: string): (n: nat)
    ensures n <= |s|
    ensures forall i :: |s| - n <= i < |s| ==> IsByteSpace(s[i])
    ensures n == |s| || !IsByteSpace(s[|s| - 1 - n])
    decreases |s|
  {
    if |s| > 0 && IsByteSpace(s[|s| - 1]) then
      assert forall i :: 0 <= i < |s| - 1 ==> s[i] == s[..|s| - 1][i];
      1 + ByteTail(s[..|s| - 1])
    else 0
  }

  /** `r` is the piece of `s` that starts at `k`, with only ASCII whitespace
      around it. */
  predicate ByteMiddle(s: string, k: int, r: string) {
    && 0 <= k && k + |r| <= |s| && r == s[k..k + |r|]
    && (forall i :: 0 <= i < k ==> IsByteSpace(s[i]))
    && (forall i :: k + |r| <= i < |s| ==> IsByteSpace(s[i]))
  }

  /** Python 2 `s.strip()` on a byte string: ASCII whitespace cut from both
      ends, every other character kept. */
  function ByteStrip(s: string): (r: string)
    ensures ByteMiddle(s, ByteLead(s), r)
    ensures ByteTrimmed(r)
  {
    if ByteLead(s) == |s| then []
    else
      s[ByteLead(s)..|s| - ByteTail(s)]
  }

  /** A text with no ASCII whitespace at either end is its own byte strip. */
  lemma {:induction false} ByteStripTrimmed(s: string)
    requires ByteTrimmed(s)
    ensures ByteStrip(s) == s
  {
    if s != [] {
      assert s[0..|s|] == s;
    }
  }

  /** ASCII whitespace is whitespace, so the byte strip keeps the words. */
  lemma {:induction false} ByteStripWords(s: string)
    ensures Words(ByteStrip(s)) == Words(s)
  {
    var r := ByteStrip(s);
    var k := ByteLead(s);
    var before, after := s[..k], s[k + |r|..];
    assert s == before + r + after;
    assert AllSpace(before) by {
      forall i | 0 <= i < |before|
        ensures IsSpace(before[i])
      {
        assert before[i] == s[i];
      }
    }
    assert AllSpace(after) by {
      forall i | 0 <= i < |after|
        ensures IsSpace(after[i])
      {
        assert after[i] == s[k + |r| + i];
      }
    }
    assert before + r + after == before + (r + after);
    WordsSkipSpaces(before, r + after);
    WordsTrailing(r, after);
  }

  // ---------------------------------------------------------------- separators

  /** `sep` occurs in `s` starting at index `i`. */
  predicate OccursAt(s: string, sep: string, i: int) {
    0 <= i && i + |sep| <= |s| && s[i..i + |sep|] == sep
  }

  /** Python's `sep in s`. */
  predicate Contains(s: string, sep: string) {
    exists i | 0 <= i <= |s| :: OccursAt(s, sep, i)
  }

  function FindFrom(s: string, sep: string, k: nat): (r: Option<nat>)
    requires |sep| > 0
    requires forall j :: 0 <= j < k ==> !OccursAt(s, sep, j)
    ensures r.Some? ==> OccursAt(s, sep, r.value)
    ensures r.Some? ==> forall j :: 0 <= j < r.value ==> !OccursAt(s, sep, j)
    ensures r.None? ==> !Contains(s, sep)
    decreases |s| - k
  {
    if k + |sep| > |s| then None
    else if s[k..k + |sep|] == sep then Some(k)
    else FindFrom(s, sep, k + 1)
  }

  /** `s.find(sep)`: the first occurrence of `sep`, if any. */
  function Find(s: string, sep: string): (r: Option<nat>)
    requires |sep| > 0
    ensures r.Some? ==> OccursAt(s, sep, r.value)
    ensures r.Some? ==> forall j :: 0 <= j < r.value ==> !OccursAt(s, sep, j)
    ensures r.None? <==> !Contains(s, sep)
  {
    FindFrom(s, sep, 0)
  }

  /** An occurrence inside a prefix is an occurrence in the whole string. */
  lemma {:induction false} OccursInPrefix(s: string, sep: string, n: nat, j: int)
    requires n <= |s|
    requires OccursAt(s[..n], sep, j)
    ensures OccursAt(s, sep, j)
  {
    assert s[..n][j..j + |sep|] == s[j..j + |sep|];
  }

  /** `s.split(sep)` for a non-empty separator: the pieces between
      non-overlapping occurrences, scanning left to right. */
  function Split(s: string, sep: string): (parts: seq<string>)
    requires |sep| > 0
    ensures |parts| >= 1
    ensures forall i :: 0 <= i < |parts| ==> !Contains(parts[i], sep)
    decreases |s|
  {
    match Find(s, sep)
    case None => [s]
    case Some(i) =>
      assert !Contains(s[..i], sep) by {
        forall j | OccursAt(s[..i], sep, j)
          ensures false
        {
          OccursInPrefix(s, sep, i, j);
        }
      }
      [s[..i]] + Split(s[i + |sep|..], sep)
  }

  /** `sep.join(parts)`. */
  function Join(parts: seq<string>, sep: string): string
  {
    if |parts| == 0 then ""
    else if |parts| == 1 then parts[0]
    else parts[0] + sep + Join(parts[1..], sep)
  }

  /** Splitting and joining again with the same separator gives back the text. */
  lemma {:induction false} JoinSplit(s: string, sep: string)
    requires |sep| > 0
    ensures Join(Split(s, sep), sep) == s
    decreases |s|
  {
    match Find(s, sep)
    case None =>
    case Some(i) =>
      var head := s[..i];
      var rest := s[i + |sep|..];
      var tail := Split(rest, sep);
      assert Split(s, sep) == [head] + tail;
      JoinSplit(rest, sep);
      assert ([head] + tail)[1..] == tail;
      assert Join([head] + tail, sep) == head + sep + Join(tail, sep);
      assert s == head + sep + rest by {
        assert s[i..i + |sep|] == sep;
        assert s == s[..i] + s[i..i + |sep|] + s[i + |sep|..];
      }
  }

  lemma {:induction false} FindFromAt(s: string, sep: string, k: nat, j: nat)
    requires |sep| > 0 && j <= k
    requires OccursAt(s, sep, k)
    requires forall i :: 0 <= i < k ==> !OccursAt(s, sep, i)
    ensures FindFrom(s, sep, j) == Some(k)
    decreases k - j
  {
    if j < k {
      assert !OccursAt(s, sep, j);
      FindFromAt(s, sep, k, j + 1);
    }
  }

  /** `Find` returns the occurrence that has no earlier one. */
  lemma {:induction false} FindAt(s: string, sep: string, k: nat)
    requires |sep| > 0
    requires OccursAt(s, sep, k)
    requires forall i :: 0 <= i < k ==> !OccursAt(s, sep, i)
    ensures Find(s, sep) == Some(k)
  {
    FindFromAt(s, sep, k, 0);
  }

  /** A string without a one-character separator has no character equal to it. */
  lemma {:induction false} NoSeparatorChar(p: string, sep: string)
    requires |sep| == 1 && !Contains(p, sep)
    ensures forall j :: 0 <= j < |p| ==> p[j] != sep[0]
  {
    forall j | 0 <= j < |p|
      ensures p[j] != sep[0]
    {
      assert !OccursAt(p, sep, j);
      assert p[j..j + 1] == [p[j]];
      assert sep == [sep[0]];
    }
  }

  /** No occurrence of `sep` starts inside `a` when `a` lacks its first character. */
  lemma {:induction false} NoEarlyOccurrence(a: string, sep: string, b: string)
    requires |sep| > 0
    requires forall j :: 0 <= j < |a| ==> a[j] != sep[0]
    ensures OccursAt(a + sep + b, sep, |a|)
    ensures forall j :: 0 <= j < |a| ==> !OccursAt(a + sep + b, sep, j)
  {
    var s := a + sep + b;
    assert s[|a|..|a| + |sep|] == sep;
    forall j | 0 <= j < |a|
      ensures !OccursAt(s, sep, j)
    {
      if j + |sep| <= |s| {
        assert s[j..j + |sep|][0] == a[j];
      }
    }
  }

  /** A string without the separator's first character does not contain it
      and is its own only piece. */
  lemma {:induction false} AbsentChar(s: string, sep: string)
    requires |sep| > 0
    requires forall j :: 0 <= j < |s| ==> s[j] != sep[0]
    ensures !Contains(s, sep)
    ensures Split(s, sep) == [s]
  {
    forall i | 0 <= i <= |s|
      ensures !OccursAt(s, sep, i)
    {
      if i + |sep| <= |s| {
        assert s[i..i + |sep|][0] == s[i];
      }
    }
  }

  /** A first piece without the separator's first character splits off. */
  lemma {:induction false} SplitFirst(a: string, sep: string, b: string)
    requires |sep| > 0
    requires forall i :: 0 <= i < |a| ==> a[i] != sep[0]
    ensures Split(a + sep + b, sep) == [a] + Split(b, sep)
  {
    var s := a + sep + b;
    NoEarlyOccurrence(a, sep, b);
    FindAt(s, sep, |a|);
    assert s[..|a|] == a;
    assert s[|a| + |sep|..] == b;
  }

  /** Two pieces around one separator split back apart, when the first piece
      does not contain the separator's first character and the second piece
      does not contain the separator. */
  lemma {:induction false} SplitPair(a: string, b: string, sep: string)
    requires |sep| > 0
    requires forall i :: 0 <= i < |a| ==> a[i] != sep[0]
    requires !Contains(b, sep)
    ensures Split(a + sep + b, sep) == [a, b]
  {
    SplitFirst(a, sep, b);
    assert Find(b, sep).None?;
  }

  /** For a one-character separator, joining pieces that do not contain it
      and splitting again gives back the pieces. */
  lemma {:induction false} SplitJoin(parts: seq<string>, sep: string)
    requires |sep| == 1 && |parts| >= 1
    requires forall i :: 0 <= i < |parts| ==> !Contains(parts[i], sep)
    ensures Split(Join(parts, sep), sep) == parts
    decreases |parts|
  {
    if |parts| == 1 {
      assert Find(parts[0], sep).None?;
    } else {
      var p := parts[0];
      var rest := Join(parts[1..], sep);
      var s := p + sep + rest;
      assert Join(parts, sep) == s;
      NoSeparatorChar(p, sep);
      NoEarlyOccurrence(p, sep, rest);
      FindAt(s, sep, |p|);
      assert s[..|p|] == p;
      assert s[|p| + 1..] == rest;
      SplitJoin(parts[1..], sep);
    }
  }

  /** `head` of `s.partition(sep)`: everything before the first `sep`. */
  function Before(s: string, sep: string): (r: string)
    requires |sep| > 0
    ensures |r| <= |s| && r == s[..|r|]
    ensures !Contains(r, sep)
    ensures Contains(s, sep) ==> OccursAt(s, sep, |r|)
    ensures !Contains(s, sep) ==> r == s
  {
    Split(s, sep)[0]
  }

  /** The head of the partition is the part before a separator that follows
      it directly, or all of it when nothing follows. */
  lemma {:induction false} BeforeAt(a: string, b: string, sep: string)
    requires |sep| > 0
    requires forall j :: 0 <= j < |a| ==> a[j] != sep[0]
    requires b == [] || (|sep| <= |b| && b[..|sep|] == sep)
    ensures Before(a + b, sep) == a
  {
    if b == [] {
      assert a + b == a;
      AbsentChar(a, sep);
    } else {
      var rest := b[|sep|..];
      assert b == sep + rest;
      assert a + b == a + sep + rest;
      NoEarlyOccurrence(a, sep, rest);
      FindAt(a + sep + rest, sep, |a|);
    }
  }

  /** A property every character of the pieces and of the separator has,
      every character of the joined text has. */
  lemma {:induction false} JoinChars(parts: seq<string>, sep: string, ok: char -> bool)
    requires forall i, j :: 0 <= i < |parts| && 0 <= j < |parts[i]| ==> ok(parts[i][j])
    requires forall j :: 0 <= j < |sep| ==> ok(sep[j])
    ensures forall j :: 0 <= j < |Join(parts, sep)| ==> ok(Join(parts, sep)[j])
    decreases |parts|
  {
    if |parts| > 1 {
      JoinChars(parts[1..], sep, ok);
      var rest := Join(parts[1..], sep);
      var s := parts[0] + sep + rest;
      assert Join(parts, sep) == s;
      forall j | 0 <= j < |s|
        ensures ok(s[j])
      {
        if j < |parts[0]| {
          assert s[j] == parts[0][j];
        } else if j < |parts[0]| + |sep| {
          assert s[j] == sep[j - |parts[0]|];
        } else {
          assert s[j] == rest[j - |parts[0]| - |sep|];
        }
      }
    } else if |parts| == 1 {
      assert forall j :: 0 <= j < |parts[0]| ==> ok(parts[0][j]);
    }
  }

  // ---------------------------------------------------------------- split()

  /** Length of the longest prefix of `s` without whitespace. */
  function WordLength(s: string): (n: nat)
    ensures n <= |s| && NoSpace(s[..n])
    ensures n == |s| || IsSpace(s[n])
    ensures |s| > 0 && !IsSpace(s[0]) ==> n > 0
    decreases |s|
  {
    if |s| == 0 || IsSpace(s[0]) then 0
    else
      var n := WordLength(s[1..]);
      assert s[..n + 1] == [s[0]] + s[1..][..n];
      n + 1
  }

  /** `s.split()`: the maximal runs of non-whitespace characters, in order. */
  function Words(s: string): (ws: seq<string>)
    ensures forall i :: 0 <= i < |ws| ==> |ws[i]| > 0 && NoSpace(ws[i])
    decreases |s|
  {
    if s == [] then []
    else if IsSpace(s[0]) then Words(s[1..])
    else
      var n := WordLength(s);
      [s[..n]] + Words(s[n..])
  }

  /** `WordLength` stops at the first whitespace character. */
  lemma {:induction false} WordLengthAt(s: string, k: nat)
    requires k <= |s| && NoSpace(s[..k])
    requires k == |s| || IsSpace(s[k])
    ensures WordLength(s) == k
    decreases k
  {
    if k > 0 {
      assert s[0] == s[..k][0];
      assert s[1..][..k - 1] == s[..k][1..];
      WordLengthAt(s[1..], k - 1);
    }
  }

  /** Unfolding `split()` once on a text that starts with a word. */
  lemma {:induction false} WordsStep(s: string)
    requires s != [] && !IsSpace(s[0])
    ensures Words(s) == [s[..WordLength(s)]] + Words(s[WordLength(s)..])
  {
  }

  /** Leading whitespace adds no word. */
  lemma {:induction false} WordsSkipSpaces(p: string, s: string)
    requires AllSpace(p)
    ensures Words(p + s) == Words(s)
    decreases |p|
  {
    if |p| > 0 {
      assert (p + s)[0] == p[0];
      assert (p + s)[1..] == p[1..] + s;
      WordsSkipSpaces(p[1..], s);
    } else {
      assert p + s == s;
    }
  }

  /** Joining whitespace-free, non-empty words with single spaces and splitting
      the result on whitespace gives back the words. */
  lemma {:induction false} WordsJoin(ws: seq<string>)
    requires forall i :: 0 <= i < |ws| ==> |ws[i]| > 0 && NoSpace(ws[i])
    ensures Words(Join(ws, " ")) == ws
    decreases |ws|
  {
    if |ws| == 1 {
      WordsOne(ws[0]);
    } else if |ws| > 1 {
      var rest := Join(ws[1..], " ");
      assert Join(ws, " ") == ws[0] + " " + rest;
      WordsSplitAt(ws[0], " ", rest);
      WordsOne(ws[0]);
      WordsJoin(ws[1..]);
    }
  }

  /** A single word splits to itself. */
  lemma {:induction false} WordsOne(w: string)
    requires |w| > 0 && NoSpace(w)
    ensures Words(w) == [w]
  {
    assert w[..|w|] == w;
    WordLengthAt(w, |w|);
    WordsStep(w);
    assert w[|w|..] == [];
  }

  /** `split()` ignores leading whitespace, so `lstrip` does not change it. */
  lemma {:induction false} WordsLStrip(s: string)
    ensures Words(LStrip(s)) == Words(s)
  {
    var k := |s| - |LStrip(s)|;
    assert s == s[..k] + LStrip(s);
    WordsSkipSpaces(s[..k], LStrip(s));
  }

  /** `s.split()` is empty exactly when `s` is all whitespace. */
  lemma {:induction false} WordsEmpty(s: string)
    ensures Words(s) == [] <==> AllSpace(s)
    decreases |s|
  {
    if s != [] {
      WordsEmpty(s[1..]);
      if IsSpace(s[0]) {
        assert AllSpace(s) <==> AllSpace(s[1..]) by {
          assert forall i :: 1 <= i < |s| ==> s[i] == s[1..][i - 1];
        }
      }
    }
  }

  /** A text that starts with a non-space character has nothing to lstrip. */
  lemma {:induction false} NoLeadingSpace(s: string)
    requires s != [] && !IsSpace(s[0])
    ensures LStrip(s) == s
  {
  }

  /** The first word of `t` is also the first word of `t` followed by
      whitespace and anything else. */
  lemma {:induction false} FirstWord(t: string, sp: string, b: string)
    requires t != [] && !IsSpace(t[0])
    requires |sp| > 0 && IsSpace(sp[0])
    ensures WordLength(t + sp + b) == WordLength(t)
  {
    var s := t + sp + b;
    var n := WordLength(t);
    assert s[..n] == t[..n];
    assert n == |s| || IsSpace(s[n]) by {
      if n < |t| {
        assert s[n] == t[n];
      } else {
        assert s[n] == sp[0];
      }
    }
    WordLengthAt(s, n);
  }

  lemma {:induction false} CutInFirst(t: string, sp: string, b: string, n: nat)
    requires n <= |t|
    ensures (t + sp + b)[..n] == t[..n] && (t + sp + b)[n..] == t[n..] + sp + b
  {
  }

  /** A run of whitespace separates the words before it from the words after it. */
  lemma {:induction false} WordsSplitAt(a: string, sp: string, b: string)
    requires |sp| > 0 && AllSpace(sp)
    ensures Words(a + sp + b) == Words(a) + Words(b)
    decreases |a|, 1
  {
    if a == [] {
      assert a + sp + b == sp + b;
      WordsSkipSpaces(sp, b);
    } else if IsSpace(a[0]) {
      var s := a + sp + b;
      assert s[0] == a[0];
      assert s[1..] == a[1..] + sp + b;
      WordsSplitAt(a[1..], sp, b);
    } else {
      WordsSplitAtWord(a, sp, b);
    }
  }

  /** `WordsSplitAt` when the text before the whitespace starts with a word. */
  lemma {:induction false} WordsSplitAtWord(t: string, sp: string, b: string)
    requires t != [] && !IsSpace(t[0])
    requires |sp| > 0 && AllSpace(sp)
    ensures Words(t + sp + b) == Words(t) + Words(b)
    decreases |t|, 0
  {
    var s := t + sp + b;
    var n := WordLength(t);
    var w := t[..n];
    assert s[0] == t[0];
    FirstWord(t, sp, b);
    CutInFirst(t, sp, b, n);
    WordsStep(s);
    assert Words(s) == [w] + Words(t[n..] + sp + b);
    WordsStep(t);
    WordsSplitAt(t[n..], sp, b);
    ConcatAssoc([w], Words(t[n..]), Words(b));
  }

  lemma {:induction false} ConcatAssoc<T>(a: seq<T>, b: seq<T>, c: seq<T>)
    ensures a + (b + c) == (a + b) + c
  {
  }

  /** Trailing whitespace adds no word. */
  lemma {:induction false} WordsTrailing(a: string, sp: string)
    requires AllSpace(sp)
    ensures Words(a + sp) == Words(a)
  {
    if |sp| > 0 {
      assert a + sp == a + sp + [];
      WordsSplitAt(a, sp, []);
    } else {
      assert a + sp == a;
    }
  }

  /** `s.strip().split() == s.split()`. */
  lemma {:induction false} WordsStrip(s: string)
    ensures Words(Strip(s)) == Words(s)
  {
    var l := LStrip(s);
    var r := Strip(s);
    var k := |s| - |l|;
    SliceSplit(s, k, k + |r|);
    WordsTrailing(r, s[k + |r|..]);
    WordsLStrip(s);
  }

  /** A suffix is its first part followed by the rest. */
  lemma {:induction false} SliceSplit(s: string, i: nat, j: nat)
    requires i <= j <= |s|
    ensures s[i..] == s[i..j] + s[j..]
  {
  }

  /** The words of every piece, in order. */
  function FlatWords(parts: seq<string>): seq<string>
  {
    if |parts| == 0 then [] else Words(parts[0]) + FlatWords(parts[1..])
  }

  /** `' '.join(parts).split()` is the pieces' words one after another. */
  lemma {:induction false} WordsOfJoin(parts: seq<string>)
    ensures Words(Join(parts, " ")) == FlatWords(parts)
    decreases |parts|
  {
    if |parts| == 0 {
    } else if |parts| == 1 {
      assert FlatWords(parts) == Words(parts[0]) + [];
    } else {
      var rest := Join(parts[1..], " ");
      assert Join(parts, " ") == parts[0] + " " + rest;
      WordsSplitAt(parts[0], " ", rest);
      WordsOfJoin(parts[1..]);
    }
  }

  /** The pieces have no word between them exactly when each is blank. */
  lemma {:induction false} FlatWordsEmpty(parts: seq<string>)
    ensures FlatWords(parts) == [] <==> forall i :: 0 <= i < |parts| ==> AllSpace(parts[i])
    decreases |parts|
  {
    if |parts| > 0 {
      var w := Words(parts[0]);
      var f := FlatWords(parts[1..]);
      assert FlatWords(parts) == w + f;
      assert w + f == [] <==> w == [] && f == [] by {
        if w + f == [] {
          assert |w + f| == 0;
        }
      }
      FlatWordsEmpty(parts[1..]);
      WordsEmpty(parts[0]);
      assert (forall i :: 0 <= i < |parts| ==> AllSpace(parts[i]))
        <==> AllSpace(parts[0]) && forall i :: 0 <= i < |parts[1..]| ==> AllSpace(parts[1..][i]) by {
        assert forall i :: 1 <= i < |parts| ==> parts[i] == parts[1..][i - 1];
      }
    }
  }

  // ---------------------------------------------------------------- splitlines()

  /** `str.splitlines` on decoded text splits at more boundaries than
      `bytes.splitlines` (Python 2 `str`) does. */
  datatype LineMode = TextLines | ByteLines

  predicate IsLineBreak(c: char, mode: LineMode) {
    || c == '\n' || c == '\r'
    || (mode == TextLines &&
        (c == '\U{0B}' || c == '\U{0C}' || c == '\U{1C}' || c == '\U{1D}' || c == '\U{1E}'
         || c == '\U{85}' || c == '\U{2028}' || c == '\U{2029}'))
  }

  predicate NoLineBreak(s: string, mode: LineMode) {
    forall i :: 0 <= i < |s| ==> !IsLineBreak(s[i], mode)
  }

  /** Length of the longest prefix of `s` without a line boundary. */
  function LineLength(s: string, mode: LineMode): (n: nat)
    ensures n <= |s| && NoLineBreak(s[..n], mode)
    ensures n == |s| || IsLineBreak(s[n], mode)
    decreases |s|
  {
    if |s| == 0 || IsLineBreak(s[0], mode) then 0
    else
      var n := LineLength(s[1..], mode);
      assert s[..n + 1] == [s[0]] + s[1..][..n];
      n + 1
  }

  /** `s.splitlines()`: the lines of `s` without their terminators; `\r\n`
      ends one line, and a final terminator does not start an empty line. */
  function SplitLines(s: string, mode: LineMode): (lines: seq<string>)
    ensures forall i :: 0 <= i < |lines| ==> NoLineBreak(lines[i], mode)
    ensures lines == [] <==> s == []
    decreases |s|
  {
    if s == [] then []
    else
      var n := LineLength(s, mode);
      if n == |s| then [s]
      else
        var w := if s[n] == '\r' && n + 1 < |s| && s[n + 1] == '\n' then 2 else 1;
        [s[..n]] + SplitLines(s[n + w..], mode)
  }

  /** The characters of `s` that are not line boundaries, in order. */
  function DropBreaks(s: string, mode: LineMode): string
    decreases |s|
  {
    if s == [] then []
    else (if IsLineBreak(s[0], mode) then [] else [s[0]]) + DropBreaks(s[1..], mode)
  }

  function Concat(parts: seq<string>): string
  {
    if |parts| == 0 then [] else parts[0] + Concat(parts[1..])
  }

  lemma {:induction false} DropBreaksAppend(a: string, b: string, mode: LineMode)
    ensures DropBreaks(a + b, mode) == DropBreaks(a, mode) + DropBreaks(b, mode)
    decreases |a|
  {
    if a == [] {
      assert a + b == b;
    } else {
      assert (a + b)[1..] == a[1..] + b;
      DropBreaksAppend(a[1..], b, mode);
    }
  }

  lemma {:induction false} DropBreaksNone(s: string, mode: LineMode)
    requires NoLineBreak(s, mode)
    ensures DropBreaks(s, mode) == s
    decreases |s|
  {
    if s != [] {
      DropBreaksNone(s[1..], mode);
    }
  }

  /** A line terminator: `\r\n`, or one boundary character. */
  predicate IsTerminator(t: string, mode: LineMode) {
    t == "\r\n" || (|t| == 1 && IsLineBreak(t[0], mode))
  }

  lemma {:induction false} TerminatorDropped(t: string, mode: LineMode)
    requires IsTerminator(t, mode)
    ensures DropBreaks(t, mode) == []
  {
    if |t| == 2 {
      assert t[1..] == "\n";
      assert DropBreaks(t[1..], mode) == [];
    }
  }

  /** One step of `SplitLines`: the first line, its terminator and the rest. */
  lemma {:induction false} SplitLinesStep(s: string, mode: LineMode) returns (head: string, term: string, rest: string)
    requires s != [] && LineLength(s, mode) < |s|
    ensures SplitLines(s, mode) == [head] + SplitLines(rest, mode)
    ensures s == head + term + rest && |rest| < |s|
    ensures NoLineBreak(head, mode)
    ensures IsTerminator(term, mode)
  {
    var n := LineLength(s, mode);
    var w := if s[n] == '\r' && n + 1 < |s| && s[n + 1] == '\n' then 2 else 1;
    head, term, rest := s[..n], s[n..n + w], s[n + w..];
    if w == 2 {
      assert term == "\r\n";
    } else {
      assert term == [s[n]];
    }
    assert s == head + term + rest;
  }

  /** `splitlines` loses only the line boundaries: the lines, concatenated,
      are the input with every boundary character removed. */
  lemma {:induction false} SplitLinesContent(s: string, mode: LineMode)
    ensures Concat(SplitLines(s, mode)) == DropBreaks(s, mode)
    decreases |s|
  {
    if s != [] {
      if LineLength(s, mode) == |s| {
        assert s[..|s|] == s;
        DropBreaksNone(s, mode);
      } else {
        var head, term, rest := SplitLinesStep(s, mode);
        SplitLinesContent(rest, mode);
        ContentStep(head, term, rest, SplitLines(rest, mode), mode);
      }
    }
  }

  lemma {:induction false} ContentStep(head: string, term: string, rest: string, lines: seq<string>, mode: LineMode)
    requires NoLineBreak(head, mode)
    requires IsTerminator(term, mode)
    requires Concat(lines) == DropBreaks(rest, mode)
    ensures Concat([head] + lines) == DropBreaks(head + term + rest, mode)
  {
    assert ([head] + lines)[1..] == lines;
    assert Concat([head] + lines) == head + Concat(lines);
    DropBreaksAppend(head + term, rest, mode);
    DropBreaksAppend(head, term, mode);
    DropBreaksNone(head, mode);
    TerminatorDropped(term, mode);
    assert DropBreaks(head + term, mode) == head by {
      assert head + [] == head;
    }
  }

  /** `LineLength` stops at the first line boundary. */
  lemma {:induction false} LineLengthAt(s: string, mode: LineMode, k: nat)
    requires k <= |s| && NoLineBreak(s[..k], mode)
    requires k == |s| || IsLineBreak(s[k], mode)
    ensures LineLength(s, mode) == k
    decreases k
  {
    if k > 0 {
      assert s[0] == s[..k][0];
      assert s[1..][..k - 1] == s[..k][1..];
      LineLengthAt(s[1..], mode, k - 1);
    }
  }

  /** A single line followed by a newline splits to just that line. */
  lemma {:induction false} SplitLinesOneLine(line: string, mode: LineMode)
    requires line != [] && NoLineBreak(line, mode)
    ensures SplitLines(line + "\n", mode) == [line]
  {
    var s := line + "\n";
    assert s[..|line|] == line;
    LineLengthAt(s, mode, |line|);
    assert s[|line| + 1..] == [];
  }

  /** A non-empty text without line boundaries is a single line. */
  lemma {:induction false} SplitLinesNoBreak(line: string, mode: LineMode)
    requires line != [] && NoLineBreak(line, mode)
    ensures SplitLines(line, mode) == [line]
  {
    assert line[..|line|] == line;
    LineLengthAt(line, mode, |line|);
  }

  /** Joining break-free pieces with spaces adds no line boundary. */
  lemma {:induction false} JoinNoBreak(parts: seq<string>, mode: LineMode)
    requires forall i :: 0 <= i < |parts| ==> NoLineBreak(parts[i], mode)
    ensures NoLineBreak(Join(parts, " "), mode)
    decreases |parts|
  {
    if |parts| > 1 {
      JoinNoBreak(parts[1..], mode);
      var rest := Join(parts[1..], " ");
      assert Join(parts, " ") == parts[0] + " " + rest;
      forall i | 0 <= i < |parts[0] + " " + rest|
        ensures !IsLineBreak((parts[0] + " " + rest)[i], mode)
      {
        if i > |parts[0]| {
          assert (parts[0] + " " + rest)[i] == rest[i - |parts[0]| - 1];
        }
      }
    }
  }

  /** Stripping keeps a text free of line boundaries. */
  lemma {:induction false} StripNoBreak(s: string, mode: LineMode)
    requires NoLineBreak(s, mode)
    ensures NoLineBreak(Strip(s), mode)
  {
    var k := |s| - |LStrip(s)|;
    SliceNoBreak(s, k, k + |Strip(s)|, mode);
  }

  /** A piece of a text without line boundaries has none either. */
  lemma {:induction false} SliceNoBreak(s: string, a: nat, b: nat, mode: LineMode)
    requires a <= b <= |s| && NoLineBreak(s, mode)
    ensures NoLineBreak(s[a..b], mode)
  {
    forall i | 0 <= i < b - a
      ensures !IsLineBreak(s[a..b][i], mode)
    {
      assert s[a..b][i] == s[a + i];
    }
  }

  /** Lines joined with `\n` (the last one non-empty) split back into the
      same lines. */
  lemma {:induction false} SplitLinesJoin(lines: seq<string>, mode: LineMode)
    requires |lines| > 0 && lines[|lines| - 1] != []
    requires forall i :: 0 <= i < |lines| ==> NoLineBreak(lines[i], mode)
    ensures SplitLines(Join(lines, "\n"), mode) == lines
    decreases |lines|
  {
    if |lines| == 1 {
      SplitLinesNoBreak(lines[0], mode);
    } else {
      var head := lines[0];
      var rest := Join(lines[1..], "\n");
      var s := head + "\n" + rest;
      assert Join(lines, "\n") == s;
      assert s[..|head|] == head;
      LineLengthAt(s, mode, |head|);
      SplitLinesJoin(lines[1..], mode);
      assert s[|head| + 1..] == rest;
      JoinNotEmpty(lines[1..]);
    }
  }

  /** Lines joined with `\n` and ended by one more `\n`, as a program
      writes them, split back into the same lines, an empty last one
      included. */
  lemma {:induction false} SplitLinesJoinNewline(lines: seq<string>, mode: LineMode)
    requires |lines| > 0
    requires forall i :: 0 <= i < |lines| ==> NoLineBreak(lines[i], mode)
    ensures SplitLines(Join(lines, "\n") + "\n", mode) == lines
    decreases |lines|
  {
    var head := lines[0];
    var rest := if |lines| == 1 then [] else Join(lines[1..], "\n") + "\n";
    var s := head + "\n" + rest;
    assert Join(lines, "\n") + "\n" == s;
    assert s[..|head|] == head;
    LineLengthAt(s, mode, |head|);
    assert s[|head| + 1..] == rest;
    if |lines| > 1 {
      SplitLinesJoinNewline(lines[1..], mode);
    }
  }

  lemma {:induction false} JoinNotEmpty(lines: seq<string>)
    requires |lines| > 0 && lines[|lines| - 1] != []
    ensures Join(lines, "\n") != []
    decreases |lines|
  {
    if |lines| > 1 {
      JoinNotEmpty(lines[1..]);
    }
  }
}
