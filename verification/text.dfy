/**
  * Strings as `seq<char>` and the JavaScript string operations the core uses:
  * ASCII lower/upper casing, the regular-expression classes `\w` and `\s`,
  * `split`, `join`, `trim`, `includes`, `startsWith`, `endsWith`, `replace` and `repeat`.
  * Case mapping is modelled on ASCII letters only.
  */
module Text {
  import opened Seqs

  /** `\w`: ASCII letters, digits and the underscore. */
  predicate IsWordChar(c: char)
  {
    'a' <= c <= 'z' || 'A' <= c <= 'Z' || '0' <= c <= '9' || c == '_'
  }

  /** `\d`. */
  predicate IsDigit(c: char)
  {
    '0' <= c <= '9'
  }

  predicate IsUpper(c: char)
  {
    'A' <= c <= 'Z'
  }

  predicate IsLowerLetter(c: char)
  {
    'a' <= c <= 'z'
  }

  /** `\s`, which is also the set of characters `trim` removes (white space and line terminators). */
  predicate IsSpace(c: char)
  {
    || c == ' ' || c == '\t' || c == '\n' || c == '\r' || c == '\U{B}' || c == '\U{C}'
    || c == '\U{A0}' || c == '\U{1680}' || ('\U{2000}' <= c <= '\U{200A}')
    || c == '\U{2028}' || c == '\U{2029}' || c == '\U{202F}' || c == '\U{205F}'
    || c == '\U{3000}' || c == '\U{FEFF}'
  }

  function Lower(c: char): (d: char)
    ensures !IsUpper(d)
    ensures IsWordChar(d) <==> IsWordChar(c)
    ensures IsSpace(d) <==> IsSpace(c)
    ensures !IsUpper(c) ==> d == c
  {
    if IsUpper(c) then (c as int + 32) as char else c
  }

  function Upper(c: char): (d: char)
    ensures !IsLowerLetter(d)
    ensures IsWordChar(d) <==> IsWordChar(c)
    ensures !IsLowerLetter(c) ==> d == c
  {
    if IsLowerLetter(c) then (c as int - 32) as char else c
  }

  /** `toLowerCase()`. */
  function ToLower(s: string): (r: string)
    ensures |r| == |s|
    ensures forall i :: 0 <= i < |s| ==> r[i] == Lower(s[i])
  {
    seq(|s|, i requires 0 <= i < |s| => Lower(s[i]))
  }

  /** No ASCII upper-case letter occurs in `s`. */
  predicate IsLowerCase(s: string)
  {
    forall i :: 0 <= i < |s| ==> !IsUpper(s[i])
  }

  /** Every character is a lower-case `\w` character. */
  predicate IsLowerWord(s: string)
  {
    forall i :: 0 <= i < |s| ==> IsWordChar(s[i]) && !IsUpper(s[i])
  }

  lemma ToLowerIdempotent(s: string)
    ensures ToLower(ToLower(s)) == ToLower(s)
    ensures IsLowerCase(ToLower(s))
  {
  }

  /** Lower-casing works character by character. */
  lemma ToLowerConcat(a: string, b: string)
    ensures ToLower(a + b) == ToLower(a) + ToLower(b)
  {
    var l, r := ToLower(a + b), ToLower(a) + ToLower(b);
    forall i | 0 <= i < |l|
      ensures l[i] == r[i]
    {
      if i < |a| {
        assert (a + b)[i] == a[i];
      } else {
        assert (a + b)[i] == b[i - |a|];
      }
    }
  }

  /** `replace(/[^\w\s]/g, ' ')`. */
  function ReplaceNonWord(s: string): (r: string)
    ensures |r| == |s|
    ensures forall i :: 0 <= i < |s| ==> r[i] == (if IsWordChar(s[i]) || IsSpace(s[i]) then s[i] else ' ')
  {
    seq(|s|, i requires 0 <= i < |s| => if IsWordChar(s[i]) || IsSpace(s[i]) then s[i] else ' ')
  }

  predicate IsWordOrSpace(c: char)
  {
    IsWordChar(c) || IsSpace(c)
  }

  /** `replace(/[^\w\s]/g, '')`. */
  function DeleteNonWord(s: string): (r: string)
    ensures forall c :: c in r <==> c in s && IsWordOrSpace(c)
  {
    Filter(IsWordOrSpace, s)
  }

  /** `replace(/[-_]/g, ' ')`. */
  function DashesToSpaces(s: string): (r: string)
    ensures |r| == |s|
    ensures forall i :: 0 <= i < |s| ==> r[i] == (if s[i] == '-' || s[i] == '_' then ' ' else s[i])
  {
    seq(|s|, i requires 0 <= i < |s| => if s[i] == '-' || s[i] == '_' then ' ' else s[i])
  }

  // ---------------------------------------------------------------- split / join

  /**
    * Splits `s` at every character satisfying `isSep`, keeping empty fields,
    * like `String.prototype.split` with a one-character separator.
    */
  function SplitBy(s: string, isSep: char -> bool): (parts: seq<string>)
    ensures |parts| >= 1
    ensures forall p :: p in parts ==> forall c :: c in p ==> c in s && !isSep(c)
  {
    if |s| == 0 then [""]
    else
      var rest := SplitBy(s[1..], isSep);
      assert forall c :: c in s[1..] ==> c in s;
      if isSep(s[0]) then [""] + rest
      else
        assert forall p :: p in rest[1..] ==> p in rest;
        var first := [s[0]] + rest[0];
        assert rest[0] in rest && s[0] in s;
        assert forall c :: c in first ==> c == s[0] || c in rest[0];
        [first] + rest[1..]
  }

  /** A string without a separator splits into itself. */
  lemma {:induction false} SplitByNoSeparator(s: string, isSep: char -> bool)
    requires forall i :: 0 <= i < |s| ==> !isSep(s[i])
    ensures SplitBy(s, isSep) == [s]
  {
    if |s| > 0 {
      SplitByNoSeparator(s[1..], isSep);
      assert [s[0]] + s[1..] == s;
    }
  }

  /** `s.split(sep)` for a one-character separator. */
  function Split(s: string, sep: char): (parts: seq<string>)
    ensures |parts| >= 1
    ensures forall p :: p in parts ==> sep !in p
  {
    SplitBy(s, c => c == sep)
  }

  predicate NonEmpty(w: string)
  {
    |w| > 0
  }

  /**
    * The non-empty fields of `s.split(/\s+/)`: the maximal runs of non-space characters.
    * The empty strings the JavaScript split yields at either end are dropped; every consumer
    * in the source discards them (a length filter, or an `includes` test with a non-empty token).
    */
  function Words(s: string): (ws: seq<string>)
    ensures forall w :: w in ws ==> |w| > 0 && forall c :: c in w ==> c in s && !IsSpace(c)
  {
    Filter(NonEmpty, SplitBy(s, IsSpace))
  }

  /** A non-empty string without white space is its own only word. */
  lemma WordsOfWord(s: string)
    requires |s| > 0 && forall i :: 0 <= i < |s| ==> !IsSpace(s[i])
    ensures Words(s) == [s]
  {
    SplitByNoSeparator(s, IsSpace);
    FilterKeepsAll(NonEmpty, [s]);
  }

  /** Lower-case the text and turn every character other than `\w` and `\s` into a blank. */
  function Clean(text: string): (r: string)
    ensures forall i :: 0 <= i < |r| ==> IsSpace(r[i]) || (IsWordChar(r[i]) && !IsUpper(r[i]))
  {
    ReplaceNonWord(ToLower(text))
  }

  /** The words of the cleaned text: `toLowerCase().replace(/[^\w\s]/g, ' ').split(/\s+/)` without empty fields. */
  function CleanWords(text: string): (words: seq<string>)
    ensures forall w :: w in words ==> |w| > 0 && IsLowerWord(w)
  {
    var clean := Clean(text);
    var words := Words(clean);
    forall w | w in words
      ensures IsLowerWord(w)
    {
      forall i | 0 <= i < |w|
        ensures IsWordChar(w[i]) && !IsUpper(w[i])
      {
        assert w[i] in w;
        var j :| 0 <= j < |clean| && clean[j] == w[i];
      }
    }
    words
  }

  /** The `token.length > 2` filter of the BM25 tokenizers. */
  predicate Long(t: string)
  {
    |t| > 2
  }

  /** `parts.join(sep)`. */
  function Join(parts: seq<string>, sep: string): string
  {
    if |parts| == 0 then ""
    else if |parts| == 1 then parts[0]
    else Join(parts[..|parts| - 1], sep) + sep + parts[|parts| - 1]
  }

  lemma {:induction false} JoinCons(p: string, ps: seq<string>, sep: string)
    requires |ps| >= 1
    ensures Join([p] + ps, sep) == p + sep + Join(ps, sep)
    decreases |ps|
  {
    var all := [p] + ps;
    var n := |ps|;
    assert all[..n] == [p] + ps[..n - 1];
    assert all[n] == ps[n - 1];
    if n == 1 {
      assert all[..n] == [p];
    } else {
      var qs := ps[..n - 1];
      JoinCons(p, qs, sep);
      assert Join(all, sep) == (p + sep + Join(qs, sep)) + sep + ps[n - 1];
      assert Join(ps, sep) == Join(qs, sep) + sep + ps[n - 1];
    }
  }

  /** Splitting at a character and joining with that character gives back the string. */
  lemma {:induction false} JoinSplit(s: string, sep: char)
    ensures Join(Split(s, sep), [sep]) == s
  {
    SplitByJoin(s, c => c == sep, sep);
  }

  lemma {:induction false} SplitByJoin(s: string, isSep: char -> bool, sep: char)
    requires forall c :: isSep(c) <==> c == sep
    ensures Join(SplitBy(s, isSep), [sep]) == s
  {
    if |s| > 0 {
      var rest := SplitBy(s[1..], isSep);
      SplitByJoin(s[1..], isSep, sep);
      assert s == [s[0]] + s[1..];
      if isSep(s[0]) {
        JoinCons("", rest, [sep]);
      } else {
        JoinPrependChar(s[0], rest, [sep]);
      }
    }
  }

  /** Prepending a character to the first part prepends it to the joined string. */
  lemma JoinPrependChar(c: char, rest: seq<string>, sep: string)
    requires |rest| >= 1
    ensures Join([[c] + rest[0]] + rest[1..], sep) == [c] + Join(rest, sep)
  {
    if |rest| > 1 {
      JoinCons(rest[0], rest[1..], sep);
      assert rest == [rest[0]] + rest[1..];
      JoinCons([c] + rest[0], rest[1..], sep);
    }
  }

  /** A field without a separator, followed by a separator, splits off as the first part. */
  lemma {:induction false} SplitByField(p: string, c: char, r: string, isSep: char -> bool)
    requires isSep(c) && forall i :: 0 <= i < |p| ==> !isSep(p[i])
    ensures SplitBy(p + [c] + r, isSep) == [p] + SplitBy(r, isSep)
  {
    var s := p + [c] + r;
    if |p| == 0 {
      assert s[1..] == r;
    } else {
      assert s[1..] == p[1..] + [c] + r;
      SplitByField(p[1..], c, r, isSep);
      assert [p[0]] + p[1..] == p;
    }
  }

  /** Joining parts without the separator and splitting again gives back the parts. */
  lemma {:induction false} SplitJoin(parts: seq<string>, sep: char)
    requires |parts| >= 1 && forall k :: 0 <= k < |parts| ==> sep !in parts[k]
    ensures Split(Join(parts, [sep]), sep) == parts
    decreases |parts|
  {
    if |parts| == 1 {
      SplitByNoSeparator(parts[0], c => c == sep);
    } else {
      var rest := parts[1..];
      assert parts == [parts[0]] + rest;
      JoinCons(parts[0], rest, [sep]);
      SplitByField(parts[0], sep, Join(rest, [sep]), c => c == sep);
      SplitJoin(rest, sep);
    }
  }

  /** `parts.slice(0, n)`. */
  function Take<T>(parts: seq<T>, n: nat): (r: seq<T>)
    ensures |r| == if n < |parts| then n else |parts|
    ensures r == parts[..|r|]
  {
    if n < |parts| then parts[..n] else parts
  }

  /** Joining the first `k` parts gives a prefix of joining them all. */
  lemma {:induction false} JoinTakePrefix(parts: seq<string>, k: nat, sep: string)
    requires k <= |parts|
    ensures IsPrefix(Join(parts[..k], sep), Join(parts, sep))
    decreases |parts|
  {
    if k < |parts| {
      var front := parts[..|parts| - 1];
      assert front[..k] == parts[..k];
      JoinTakePrefix(front, k, sep);
      if |parts| > 1 {
        var whole := Join(parts, sep);
        assert whole == Join(front, sep) + sep + parts[|parts| - 1];
        assert whole[..|Join(front, sep)|] == Join(front, sep);
      } else {
        assert parts[..k] == [];
      }
    } else {
      assert parts[..k] == parts;
    }
  }

  // ---------------------------------------------------------------- substrings

  /** `t` occurs in `s` starting at index `i`. */
  predicate OccursAt(t: string, s: string, i: int)
  {
    0 <= i && i + |t| <= |s| && s[i..i + |t|] == t
  }

  /** `t` occurs in `s` at some position. */
  ghost predicate Substring(t: string, s: string)
  {
    exists i :: OccursAt(t, s, i)
  }

  predicate IsPrefix(p: string, s: string)
  {
    |p| <= |s| && s[..|p|] == p
  }

  /** `s.startsWith(p)`. */
  predicate StartsWith(s: string, p: string)
  {
    IsPrefix(p, s)
  }

  /** `s.endsWith(p)`. */
  predicate EndsWith(s: string, p: string)
  {
    |p| <= |s| && s[|s| - |p|..] == p
  }

  /** `s.includes(t)`. */
  function Contains(s: string, t: string): (b: bool)
    ensures b <==> Substring(t, s)
  {
    if IsPrefix(t, s) then
      assert OccursAt(t, s, 0);
      true
    else if |s| == 0 then
      false
    else
      var b := Contains(s[1..], t);
      SubstringOfTail(t, s);
      b
  }

  /** An occurrence in `s` that is not at the start is an occurrence in `s[1..]`, and back. */
  lemma SubstringOfTail(t: string, s: string)
    requires |s| > 0 && !IsPrefix(t, s)
    ensures Substring(t, s) <==> Substring(t, s[1..])
  {
    if Substring(t, s) {
      var i :| OccursAt(t, s, i);
      assert i != 0;
      assert OccursAt(t, s[1..], i - 1);
    }
    if Substring(t, s[1..]) {
      var i :| OccursAt(t, s[1..], i);
      assert OccursAt(t, s, i + 1);
    }
  }

  lemma SubstringOfSlice(s: string, i: nat, j: nat)
    requires i <= j <= |s|
    ensures Substring(s[i..j], s)
  {
    assert OccursAt(s[i..j], s, i);
  }

  lemma SubstringTransitive(a: string, b: string, c: string)
    requires Substring(a, b) && Substring(b, c)
    ensures Substring(a, c)
  {
    var i :| OccursAt(a, b, i);
    var j :| OccursAt(b, c, j);
    forall k | 0 <= k < |a|
      ensures c[j + i + k] == a[k]
    {
      assert b[i + k] == a[k];
      assert c[j + (i + k)] == b[i + k];
    }
    assert c[j + i..j + i + |a|] == a;
    assert OccursAt(a, c, j + i);
  }

  // ---------------------------------------------------------------- trim

  function TrimStart(s: string): (r: string)
    ensures |r| <= |s| && r == s[|s| - |r|..]
    ensures forall i :: 0 <= i < |s| - |r| ==> IsSpace(s[i])
    ensures |r| > 0 ==> !IsSpace(r[0])
  {
    if |s| > 0 && IsSpace(s[0]) then TrimStart(s[1..]) else s
  }

  function TrimEnd(s: string): (r: string)
    ensures |r| <= |s| && r == s[..|r|]
    ensures forall i :: |r| <= i < |s| ==> IsSpace(s[i])
    ensures |r| > 0 ==> !IsSpace(r[|r| - 1])
  {
    if |s| > 0 && IsSpace(s[|s| - 1]) then TrimEnd(s[..|s| - 1]) else s
  }

  /** `r` is `s[i..i + |r|]` and everything of `s` outside that slice is white space. */
  predicate TrimmedAt(s: string, r: string, i: int)
  {
    && 0 <= i && i + |r| <= |s| && r == s[i..i + |r|]
    && (forall k :: 0 <= k < i ==> IsSpace(s[k]))
    && (forall k :: i + |r| <= k < |s| ==> IsSpace(s[k]))
  }

  /** `trim()`: the string without its leading and trailing white space. */
  function Trim(s: string): (r: string)
    ensures exists i :: TrimmedAt(s, r, i)
    ensures |r| > 0 ==> !IsSpace(r[0]) && !IsSpace(r[|r| - 1])
  {
    var a := TrimStart(s);
    var r := TrimEnd(a);
    assert TrimmedAt(s, r, |s| - |a|);
    r
  }

  /** A string made only of white space (or empty): `!s.trim()` in the source. */
  predicate IsBlank(s: string)
  {
    forall i :: 0 <= i < |s| ==> IsSpace(s[i])
  }

  lemma TrimEmptyIffBlank(s: string)
    ensures Trim(s) == "" <==> IsBlank(s)
  {
    var a := TrimStart(s);
    if a != "" {
      assert !IsSpace(TrimEnd(a)[0]) || TrimEnd(a) == "";
      assert TrimEnd(a) != "" by {
        assert !IsSpace(a[0]);
      }
      assert !IsSpace(s[|s| - |a|]);
    }
  }

  // ---------------------------------------------------------------- other rewrites

  /** `s.repeat(n)`: `n` copies of `s`, with nothing between them. */
  function Repeat(s: string, n: nat): (r: string)
    ensures |r| == n * |s|
  {
    if n == 0 then "" else Repeat(s, n - 1) + s
  }

  /** `s.replace(pat, rep)` with a string pattern: only the first occurrence is replaced. */
  function ReplaceFirst(s: string, pat: string, rep: string): (r: string)
    ensures !Substring(pat, s) ==> r == s
  {
    if IsPrefix(pat, s) then
      assert OccursAt(pat, s, 0);
      rep + s[|pat|..]
    else if |s| == 0 then
      s
    else
      SubstringOfTail(pat, s);
      [s[0]] + ReplaceFirst(s[1..], pat, rep)
  }

  /** `s.replace(/^p/, '')`: removes `p` only where it starts the string. */
  function StripPrefix(s: string, p: string): (r: string)
    ensures IsPrefix(p, s) ==> s == p + r
    ensures !IsPrefix(p, s) ==> r == s
  {
    if IsPrefix(p, s) then s[|p|..] else s
  }

  /** `s.charAt(0).toUpperCase() + s.slice(1)`. */
  function Capitalize(s: string): (r: string)
    ensures |r| == |s|
    ensures |s| > 0 ==> r[0] == Upper(s[0]) && r[1..] == s[1..]
  {
    if |s| == 0 then s else [Upper(s[0])] + s[1..]
  }

  /** `replace(/\s+/g, ' ')`: every maximal run of white space becomes one blank. */
  function CollapseSpaces(s: string): (r: string)
    ensures forall i :: 0 <= i < |r| ==> IsSpace(r[i]) ==> r[i] == ' '
    ensures forall i :: 0 <= i < |r| - 1 ==> !(r[i] == ' ' && r[i + 1] == ' ')
    ensures forall i :: 0 <= i < |r| ==> !IsSpace(r[i]) ==> r[i] in s
    ensures |r| > 0 <==> |s| > 0
    ensures |r| > 0 ==> (IsSpace(r[0]) <==> IsSpace(s[0]))
  {
    if |s| == 0 then ""
    else if IsSpace(s[0]) then
      var t := TrimStart(s);
      var rest := CollapseSpaces(t);
      assert forall c :: c in t ==> c in s;
      " " + rest
    else
      var rest := CollapseSpaces(s[1..]);
      [s[0]] + rest
  }

  // ---------------------------------------------------------------- words survive cleaning

  /** A non-empty run of `\w` characters. */
  predicate IsWord(w: string)
  {
    |w| > 0 && forall i :: 0 <= i < |w| ==> IsWordChar(w[i])
  }

  /** No character of `w` is white space. */
  predicate NoSpace(w: string)
  {
    forall i :: 0 <= i < |w| ==> !IsSpace(w[i])
  }

  lemma WordHasNoSpace(w: string)
    requires IsWord(w)
    ensures NoSpace(w)
  {
    forall i | 0 <= i < |w|
      ensures !IsSpace(w[i])
    {
      assert IsWordChar(w[i]);
    }
  }

  /** Each part occurs in the joined string. */
  lemma {:induction false} SubstringOfJoin(parts: seq<string>, sep: string, k: nat)
    requires k < |parts|
    ensures Substring(parts[k], Join(parts, sep))
    decreases |parts|
  {
    var n := |parts| - 1;
    if |parts| == 1 {
      assert OccursAt(parts[k], Join(parts, sep), 0);
    } else if k == n {
      var j := Join(parts, sep);
      assert j == Join(parts[..n], sep) + sep + parts[n];
      assert OccursAt(parts[k], j, |j| - |parts[n]|);
    } else {
      SubstringOfJoin(parts[..n], sep, k);
      var front := Join(parts[..n], sep);
      var j := Join(parts, sep);
      assert j == front + sep + parts[n];
      assert OccursAt(front, j, 0);
      SubstringTransitive(parts[k], front, j);
    }
  }

  /** A string occurs in any positive number of copies of itself. */
  lemma SubstringOfRepeat(s: string, n: nat)
    requires n >= 1
    ensures Substring(s, Repeat(s, n))
  {
    var r := Repeat(s, n);
    assert r == Repeat(s, n - 1) + s;
    assert OccursAt(s, r, |r| - |s|);
  }

  /** Blanking the non-word characters keeps every occurrence of a word. */
  lemma ReplaceNonWordKeepsWord(w: string, s: string)
    requires IsWord(w) && Substring(w, s)
    ensures Substring(w, ReplaceNonWord(s))
  {
    var i :| OccursAt(w, s, i);
    var r := ReplaceNonWord(s);
    assert forall k :: 0 <= k < |w| ==> r[i + k] == s[i + k] == w[k];
    assert r[i..i + |w|] == w;
    assert OccursAt(w, r, i);
  }

  /** Collapsing white space keeps a prefix that holds none. */
  lemma {:induction false} CollapseKeepsPrefix(u: string, s: string)
    requires NoSpace(u)
    requires IsPrefix(u, s)
    ensures IsPrefix(u, CollapseSpaces(s))
  {
    if |u| > 0 {
      assert s[0] == u[0] by {
        assert s[..|u|][0] == s[0];
      }
      assert NoSpace(u[1..]) by {
        assert forall i :: 0 <= i < |u| - 1 ==> u[1..][i] == u[i + 1];
      }
      assert IsPrefix(u[1..], s[1..]) by {
        assert s[1..][..|u| - 1] == s[..|u|][1..];
      }
      CollapseKeepsPrefix(u[1..], s[1..]);
      var rest := CollapseSpaces(s[1..]);
      assert CollapseSpaces(s) == [s[0]] + rest;
      PrefixCons(s[0], u[1..], rest);
      assert [s[0]] + u[1..] == u;
    }
  }

  /** A common first character keeps a prefix a prefix. */
  lemma PrefixCons(c: char, u: string, r: string)
    requires IsPrefix(u, r)
    ensures IsPrefix([c] + u, [c] + r)
  {
    assert ([c] + r)[..|u| + 1] == [c] + r[..|u|];
  }

  /** An occurrence stays one, shifted, when something is put in front. */
  lemma OccursAfter(w: string, p: string, r: string, j: int)
    requires OccursAt(w, r, j)
    ensures OccursAt(w, p + r, |p| + j)
  {
    assert (p + r)[|p| + j..|p| + j + |w|] == r[j..j + |w|];
  }

  /** Skipping leading white space keeps an occurrence that starts with a non-space. */
  lemma TrimStartKeeps(w: string, s: string, i: int)
    requires OccursAt(w, s, i) && |w| > 0 && !IsSpace(w[0])
    ensures |s| - |TrimStart(s)| <= i
    ensures OccursAt(w, TrimStart(s), i - (|s| - |TrimStart(s)|))
  {
    var t := TrimStart(s);
    SkipSpacesKeeps(w, s, |s| - |t|, i);
  }

  /** An occurrence starting with a non-space survives dropping a run of leading white space. */
  lemma SkipSpacesKeeps(w: string, s: string, d: nat, i: int)
    requires d <= |s| && forall k :: 0 <= k < d ==> IsSpace(s[k])
    requires OccursAt(w, s, i) && |w| > 0 && !IsSpace(w[0])
    ensures d <= i && OccursAt(w, s[d..], i - d)
  {
    assert !IsSpace(s[i]) by {
      assert s[i..i + |w|][0] == s[i];
    }
    OccursInSlice(w, s, i, d, |s| - d);
    assert s[d..d + (|s| - d)] == s[d..];
  }

  /** Collapsing white space keeps every occurrence of a word. */
  lemma {:induction false} CollapseKeepsWord(w: string, s: string)
    requires |w| > 0 && NoSpace(w) && Substring(w, s)
    ensures Substring(w, CollapseSpaces(s))
    decreases |s|
  {
    var i :| OccursAt(w, s, i);
    if IsSpace(s[0]) {
      var t := TrimStart(s);
      TrimStartKeeps(w, s, i);
      CollapseKeepsWord(w, t);
      var rest := CollapseSpaces(t);
      var j :| OccursAt(w, rest, j);
      OccursAfter(w, " ", rest, j);
    } else if i == 0 {
      CollapseKeepsPrefix(w, s);
      assert OccursAt(w, CollapseSpaces(s), 0);
    } else {
      assert OccursAt(w, s[1..], i - 1);
      CollapseKeepsWord(w, s[1..]);
      var rest := CollapseSpaces(s[1..]);
      var j :| OccursAt(w, rest, j);
      OccursAfter(w, [s[0]], rest, j);
    }
  }

  /** An occurrence inside a slice is an occurrence in the slice, shifted. */
  lemma OccursInSlice(w: string, s: string, i: nat, k: nat, n: nat)
    requires OccursAt(w, s, i) && k <= i && i + |w| <= k + n <= |s|
    ensures OccursAt(w, s[k..k + n], i - k)
  {
    var t := s[k..k + n];
    forall j | 0 <= j < |w|
      ensures t[i - k + j] == w[j]
    {
      assert t[i - k + j] == s[i + j];
      assert s[i..i + |w|][j] == s[i + j];
    }
    assert t[i - k..i - k + |w|] == w;
  }

  /** An occurrence that begins and ends with non-space characters lies inside the trimmed slice. */
  lemma TrimmedAtKeeps(w: string, s: string, r: string, k: int, i: int)
    requires TrimmedAt(s, r, k) && OccursAt(w, s, i)
    requires |w| > 0 && !IsSpace(w[0]) && !IsSpace(w[|w| - 1])
    ensures k <= i && OccursAt(w, r, i - k)
  {
    assert s[i] == w[0];
    assert s[i + |w| - 1] == w[|w| - 1];
    OccursInSlice(w, s, i, k, |r|);
  }

  /** Trimming keeps every occurrence of a word. */
  lemma TrimKeepsWord(w: string, s: string)
    requires |w| > 0 && NoSpace(w) && Substring(w, s)
    ensures Substring(w, Trim(s))
  {
    var i :| OccursAt(w, s, i);
    var r := Trim(s);
    var k :| TrimmedAt(s, r, k);
    TrimmedAtKeeps(w, s, r, k, i);
  }

  /** Lower-casing keeps every occurrence, lower-cased. */
  lemma ToLowerKeepsSubstring(w: string, s: string)
    requires Substring(w, s)
    ensures Substring(ToLower(w), ToLower(s))
  {
    var i :| OccursAt(w, s, i);
    var l := ToLower(s);
    assert l[i..i + |w|] == ToLower(w);
    assert OccursAt(ToLower(w), l, i);
  }

  // ---------------------------------------------------------------- the words of a text

  /** Splitting at a separator character splits the two sides independently. */
  lemma {:induction false} SplitByConcat(a: string, c: char, b: string, isSep: char -> bool)
    requires isSep(c)
    ensures SplitBy(a + [c] + b, isSep) == SplitBy(a, isSep) + SplitBy(b, isSep)
    decreases |a|
  {
    var s := a + [c] + b;
    if |a| == 0 {
      assert s[1..] == b;
    } else {
      assert s[0] == a[0];
      assert s[1..] == a[1..] + [c] + b;
      SplitByConcat(a[1..], c, b, isSep);
    }
  }

  /** A white-space character separates the words on either side of it. */
  lemma WordsConcat(a: string, c: char, b: string)
    requires IsSpace(c)
    ensures Words(a + [c] + b) == Words(a) + Words(b)
  {
    SplitByConcat(a, c, b, IsSpace);
    FilterAppend(NonEmpty, SplitBy(a, IsSpace), SplitBy(b, IsSpace));
  }

  /** Cleaning works character by character. */
  lemma CleanConcat(a: string, c: char, b: string)
    ensures Clean(a + [c] + b) == Clean(a) + Clean([c]) + Clean(b)
  {
    var s := a + [c] + b;
    assert forall i :: 0 <= i < |a| ==> s[i] == a[i];
    assert forall i :: 0 <= i < |b| ==> s[|a| + 1 + i] == b[i];
  }

  /** Every character other than `\w` separates the words of the cleaned text. */
  lemma CleanWordsConcat(a: string, c: char, b: string)
    requires !IsWordChar(c)
    ensures CleanWords(a + [c] + b) == CleanWords(a) + CleanWords(b)
  {
    CleanConcat(a, c, b);
    var d := Clean([c])[0];
    assert Clean([c]) == [d];
    WordsConcat(Clean(a), d, Clean(b));
  }

  /** A `\w` word is the only word of its cleaned text, lower-cased. */
  lemma CleanWordsOfWord(w: string)
    requires IsWord(w)
    ensures CleanWords(w) == [ToLower(w)]
  {
    var l := ToLower(w);
    assert Clean(w) == l;
    assert forall i :: 0 <= i < |l| ==> IsWordChar(l[i]) && !IsSpace(l[i]);
    WordsOfWord(l);
  }

  /** The cleaned words of lower-case `\w` words joined by blanks are those words, in order. */
  lemma {:induction false} CleanWordsJoin(ws: seq<string>)
    requires forall k :: 0 <= k < |ws| ==> IsWord(ws[k]) && IsLowerWord(ws[k])
    ensures CleanWords(Join(ws, " ")) == ws
    decreases |ws|
  {
    if |ws| == 0 {
      assert Clean("") == "";
    } else {
      var n := |ws| - 1;
      var front, w := ws[..n], ws[n];
      CleanWordsOfLowerWord(w);
      assert ws == front + [w];
      if n > 0 {
        CleanWordsJoin(front);
        JoinLast(ws, " ");
        CleanWordsConcat(Join(front, " "), ' ', w);
      }
    }
  }

  lemma CleanWordsOfLowerWord(w: string)
    requires IsWord(w) && IsLowerWord(w)
    ensures CleanWords(w) == [w]
  {
    CleanWordsOfWord(w);
    assert ToLower(w) == w;
  }

  lemma JoinLast(ws: seq<string>, sep: string)
    requires |ws| > 1
    ensures Join(ws, sep) == Join(ws[..|ws| - 1], sep) + sep + ws[|ws| - 1]
  {
  }
}
