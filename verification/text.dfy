/** String operations the parser relies on, with Python's semantics:
    `str.find`, slicing with negative indices, `str.replace(sep, "")`
    (with `str.split`/`str.join` as its reference) and `str.strip()`. */
module Text {

  /** `s.find(c)`: the index of the first `c`, or -1 when there is none. */
  function Find(s: string, c: char): (i: int)
    ensures -1 <= i < |s|
    ensures i == -1 <==> c !in s
    ensures 0 <= i ==> s[i] == c && c !in s[..i]
  {
    if |s| == 0 then -1
    else if s[0] == c then 0
    else
      var j := Find(s[1..], c);
      assert s[1..][..j + 1] == s[1..j + 2] by { }
      if j == -1 then -1 else j + 1
  }

  /** How a slice bound `i` is resolved against a string of length `n`:
      a negative bound counts from the end, and either way it is clamped to `0..n`. */
  function SliceBound(i: int, n: nat): (k: nat)
    ensures k <= n
    ensures 0 <= i <= n ==> k == i
    ensures i < 0 && 0 <= i + n ==> k == i + n
  {
    if i < 0 then (if i + n < 0 then 0 else i + n)
    else if i > n then n
    else i
  }

  /** `s[start:stop]`. */
  function PySlice(s: string, start: int, stop: int): (r: string)
    ensures exists a, b :: 0 <= a <= b <= |s| && r == s[a..b]
  {
    var a := SliceBound(start, |s|);
    var b := SliceBound(stop, |s|);
    if a < b then s[a..b] else s[a..a]
  }

  /** The embedded document of a padded-callback payload:
      `text[text.find("(") + 1 : text.find(")")]`. Whatever the text, the
      result is a contiguous piece of it that holds no `)`. */
  function JsonpDocument(text: string): (doc: string)
    ensures ')' !in doc
    ensures exists a, b :: 0 <= a <= b <= |text| && doc == text[a..b]
  {
    var open := Find(text, '(');
    var close := Find(text, ')');
    var doc := PySlice(text, open + 1, close);
    assert ')' !in doc by {
      var a := SliceBound(open + 1, |text|);
      var b := SliceBound(close, |text|);
      if a < b {
        if close == -1 {
          assert forall k :: a <= k < b ==> text[k] in text;
        } else {
          assert forall k :: a <= k < b ==> text[k] in text[..close];
        }
      }
    }
    doc
  }

  /** The well-formed case: with a `(` before the first `)`, the document is
      exactly the characters strictly between the first `(` and the first `)`. */
  lemma DocumentBetweenParens(text: string, open: nat, close: nat)
    requires open < close < |text|
    requires text[open] == '(' && '(' !in text[..open]
    requires text[close] == ')' && ')' !in text[..close]
    ensures JsonpDocument(text) == text[open + 1..close]
  {
    assert Find(text, '(') == open;
    assert Find(text, ')') == close;
  }

  /** Without any `)`, the stop bound is -1, so the slice runs from after the
      first `(` (or from the start) up to but excluding the LAST character. */
  lemma DocumentWithoutClose(text: string)
    requires ')' !in text && |text| > 0
    ensures '(' !in text ==> JsonpDocument(text) == text[..|text| - 1]
    ensures '(' in text && Find(text, '(') + 1 < |text| - 1 ==>
              JsonpDocument(text) == text[Find(text, '(') + 1..|text| - 1]
    ensures '(' in text && Find(text, '(') + 1 >= |text| - 1 ==> JsonpDocument(text) == []
  {
    assert Find(text, ')') == -1;
    assert SliceBound(-1, |text|) == |text| - 1;
    var a := SliceBound(Find(text, '(') + 1, |text|);
    assert a == Find(text, '(') + 1;
    assert JsonpDocument(text) == PySlice(text, a, |text| - 1);
  }

  /** Without any `(`, the slice starts at 0: everything before the first `)`. */
  lemma DocumentWithoutOpen(text: string, close: nat)
    requires '(' !in text
    requires close < |text| && text[close] == ')' && ')' !in text[..close]
    ensures JsonpDocument(text) == text[..close]
  {
    assert Find(text, ')') == close;
  }

  /** A `)` before the first `(` gives the empty document. */
  lemma DocumentCloseFirst(text: string, open: nat, close: nat)
    requires close < open < |text|
    requires text[open] == '(' && '(' !in text[..open]
    requires text[close] == ')' && ')' !in text[..close]
    ensures JsonpDocument(text) == []
  {
    assert Find(text, '(') == open;
    assert Find(text, ')') == close;
  }

  // ---------------------------------------------------------------------
  // str.replace(sep, "") and its reference, str.split / str.join

  predicate IsPrefix(p: string, s: string)
  {
    |p| <= |s| && s[..|p|] == p
  }

  /** `sep` occurs in `s` starting at index `k`. */
  ghost predicate OccursAt(sep: string, s: string, k: int)
  {
    0 <= k <= |s| - |sep| && s[k..k + |sep|] == sep
  }

  /** `sep` occurs somewhere in `s`. */
  ghost predicate Occurs(sep: string, s: string)
  {
    exists k :: OccursAt(sep, s, k)
  }

  /** `s.split(sep)`: the pieces between the leftmost non-overlapping
      occurrences of `sep`. */
  function Split(s: string, sep: string): (parts: seq<string>)
    requires |sep| > 0
    ensures |parts| > 0
    decreases |s|
  {
    if |s| == 0 then [[]]
    else if IsPrefix(sep, s) then [[]] + Split(s[|sep|..], sep)
    else
      var rest := Split(s[1..], sep);
      [[s[0]] + rest[0]] + rest[1..]
  }

  /** `sep.join(parts)`. */
  function Join(parts: seq<string>, sep: string): string
    requires |parts| > 0
  {
    if |parts| == 1 then parts[0] else parts[0] + sep + Join(parts[1..], sep)
  }

  /** `s.replace(sep, "")`: a left-to-right scan that drops every occurrence
      it meets, resuming after the dropped occurrence. */
  function RemoveAll(s: string, sep: string): string
    requires |sep| > 0
    decreases |s|
  {
    if |s| == 0 then []
    else if IsPrefix(sep, s) then RemoveAll(s[|sep|..], sep)
    else [s[0]] + RemoveAll(s[1..], sep)
  }

  /** Splitting and re-joining gives the original string back. */
  lemma {:induction false} SplitJoin(s: string, sep: string)
    requires |sep| > 0
    ensures Join(Split(s, sep), sep) == s
    decreases |s|
  {
    if |s| == 0 {
    } else if IsPrefix(sep, s) {
      SplitJoin(s[|sep|..], sep);
      assert s == sep + s[|sep|..];
    } else {
      SplitJoin(s[1..], sep);
      JoinConsChar(s[0], Split(s[1..], sep), sep);
      assert s == [s[0]] + s[1..];
    }
  }

  /** Gluing a character to the front of the first piece glues it to the
      front of the join. */
  lemma JoinConsChar(c: char, parts: seq<string>, sep: string)
    requires |parts| > 0
    ensures Join([[c] + parts[0]] + parts[1..], sep) == [c] + Join(parts, sep)
  {
    var glued := [[c] + parts[0]] + parts[1..];
    assert glued[1..] == parts[1..];
    if |parts| > 1 {
      assert Join(glued, sep) == ([c] + parts[0]) + sep + Join(parts[1..], sep);
      assert Join(parts, sep) == parts[0] + sep + Join(parts[1..], sep);
    }
  }

  /** The first piece of a split is a prefix of the string. */
  lemma {:induction false} SplitFirstIsPrefix(s: string, sep: string)
    requires |sep| > 0
    ensures IsPrefix(Split(s, sep)[0], s)
    decreases |s|
  {
    if |s| > 0 && !IsPrefix(sep, s) {
      SplitFirstIsPrefix(s[1..], sep);
    }
  }

  /** A character glued in front of a separator-free piece cannot create an
      occurrence of the separator, unless the separator starts right there. */
  lemma ConsPieceFree(c: char, piece: string, sep: string, s: string)
    requires |sep| > 0 && !Occurs(sep, piece)
    requires IsPrefix([c] + piece, s) && !IsPrefix(sep, s)
    ensures !Occurs(sep, [c] + piece)
  {
    var first := [c] + piece;
    forall k | 0 <= k <= |first| - |sep| ensures !OccursAt(sep, first, k) {
      if k == 0 {
        assert s[..|first|] == first;
        assert first[0..|sep|] == s[..|first|][..|sep|];
        assert s[..|first|][..|sep|] == s[..|sep|];
      } else {
        assert first[k..k + |sep|] == piece[k - 1..k - 1 + |sep|];
        assert !OccursAt(sep, piece, k - 1);
      }
    }
  }

  /** No piece of a split contains the separator. */
  lemma {:induction false} SplitPiecesFree(s: string, sep: string)
    requires |sep| > 0
    ensures forall p :: p in Split(s, sep) ==> !Occurs(sep, p)
    decreases |s|
  {
    if |s| == 0 {
    } else if IsPrefix(sep, s) {
      SplitPiecesFree(s[|sep|..], sep);
    } else {
      var rest := Split(s[1..], sep);
      SplitPiecesFree(s[1..], sep);
      SplitFirstIsPrefix(s[1..], sep);
      assert rest[0] in rest;
      assert IsPrefix([s[0]] + rest[0], s) by {
        assert s[1..][..|rest[0]|] == rest[0];
      }
      ConsPieceFree(s[0], rest[0], sep, s);
      assert forall p :: p in rest[1..] ==> p in rest;
    }
  }

  /** Removing every occurrence is the concatenation of the split's pieces:
      the characters that remain are exactly those between the occurrences. */
  lemma {:induction false} RemoveAllIsSplitConcat(s: string, sep: string)
    requires |sep| > 0
    ensures RemoveAll(s, sep) == Join(Split(s, sep), [])
    decreases |s|
  {
    if |s| == 0 {
    } else if IsPrefix(sep, s) {
      RemoveAllIsSplitConcat(s[|sep|..], sep);
    } else {
      var rest := Split(s[1..], sep);
      RemoveAllIsSplitConcat(s[1..], sep);
      if |rest| > 1 {
        assert Join(rest, []) == rest[0] + Join(rest[1..], []);
        assert Join([[s[0]] + rest[0]] + rest[1..], [])
            == [s[0]] + rest[0] + Join(rest[1..], []);
      }
    }
  }

  // ---------------------------------------------------------------------
  // str.strip()

  /** The characters `str.isspace()` accepts. */
  predicate IsSpace(c: char)
  {
    || ('\t' <= c <= '\r')
    || ('\U{1C}' <= c <= ' ')
    || c == '\U{85}' || c == '\U{A0}' || c == '\U{1680}'
    || ('\U{2000}' <= c <= '\U{200A}')
    || c == '\U{2028}' || c == '\U{2029}' || c == '\U{202F}'
    || c == '\U{205F}' || c == '\U{3000}'
  }

  /** Every character of `s[lo..hi]` is whitespace. */
  ghost predicate AllSpace(s: string, lo: int, hi: int)
    requires 0 <= lo <= hi <= |s|
  {
    forall k :: lo <= k < hi ==> IsSpace(s[k])
  }

  /** Where `s.lstrip()` starts cutting from `lo`: the index of the first
      non-whitespace character at or after `lo`, or `|s|` when there is none. */
  function SkipSpace(s: string, lo: nat): (i: nat)
    requires lo <= |s|
    ensures lo <= i <= |s| && AllSpace(s, lo, i)
    ensures i < |s| ==> !IsSpace(s[i])
    decreases |s| - lo
  {
    if lo < |s| && IsSpace(s[lo]) then SkipSpace(s, lo + 1) else lo
  }

  /** Where `s.rstrip()` stops within `s[lo..hi]`: one past the last
      non-whitespace character, or `lo` when there is none. */
  function SkipSpaceBack(s: string, lo: nat, hi: nat): (j: nat)
    requires lo <= hi <= |s|
    ensures lo <= j <= hi && AllSpace(s, j, hi)
    ensures j > lo ==> !IsSpace(s[j - 1])
    decreases hi
  {
    if hi > lo && IsSpace(s[hi - 1]) then SkipSpaceBack(s, lo, hi - 1) else hi
  }

  /** `s.strip()`: the middle piece of `s` left when whitespace is cut off
      both ends; it neither starts nor ends with whitespace. */
  function Strip(s: string): (r: string)
    ensures exists i :: 0 <= i <= |s| - |r| && r == s[i..i + |r|]
                        && AllSpace(s, 0, i) && AllSpace(s, i + |r|, |s|)
    ensures |r| > 0 ==> !IsSpace(r[0]) && !IsSpace(r[|r| - 1])
  {
    var i := SkipSpace(s, 0);
    var j := SkipSpaceBack(s, i, |s|);
    assert |s[i..j]| > 0 ==> s[i..j][0] == s[i] && s[i..j][j - i - 1] == s[j - 1];
    s[i..j]
  }

  /** Stripping leaves nothing exactly when the string is all whitespace. */
  lemma StripEmpty(s: string)
    ensures Strip(s) == [] <==> AllSpace(s, 0, |s|)
  {
    var i :| 0 <= i <= |s| - |Strip(s)| && Strip(s) == s[i..i + |Strip(s)|]
             && AllSpace(s, 0, i) && AllSpace(s, i + |Strip(s)|, |s|);
    if |Strip(s)| > 0 {
      assert Strip(s)[0] == s[i];
    }
  }

  // ---------------------------------------------------------------------
  // Support-request labels

  const RequestsToken: string := "requests"

  /** A support category name: `label.replace("requests", "").strip()`. */
  function SupportCategory(raw: string): string
  {
    Strip(RemoveAll(raw, RequestsToken))
  }

  /** The category name is the label cut at every occurrence of "requests",
      with the remaining pieces glued together and surrounding whitespace
      trimmed; none of the pieces contains "requests", and joining them back
      with "requests" gives the label again. */
  lemma SupportCategoryCharacterised(raw: string)
    ensures var pieces := Split(raw, RequestsToken);
            && raw == Join(pieces, RequestsToken)
            && (forall p :: p in pieces ==> !Occurs(RequestsToken, p))
            && SupportCategory(raw) == Strip(Join(pieces, []))
  {
    SplitJoin(raw, RequestsToken);
    SplitPiecesFree(raw, RequestsToken);
    RemoveAllIsSplitConcat(raw, RequestsToken);
  }

  /** Labels without "requests" are only trimmed. */
  lemma {:induction false} RemoveAllAbsent(s: string, sep: string)
    requires |sep| > 0 && !Occurs(sep, s)
    ensures RemoveAll(s, sep) == s
    decreases |s|
  {
    if |s| > 0 {
      assert !OccursAt(sep, s, 0);
      forall k | OccursAt(sep, s[1..], k) ensures OccursAt(sep, s, k + 1) {
        assert s[1..][k..k + |sep|] == s[k + 1..k + 1 + |sep|];
      }
      RemoveAllAbsent(s[1..], sep);
      assert s == [s[0]] + s[1..];
    }
  }
}
