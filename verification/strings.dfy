/** The JavaScript string operations the blocks rely on: `trim`,
    `toLowerCase`, `includes`, `startsWith`, `split`/`join`, and the two
    regular-expression replacements (`/\s+/g` and `/<[^>]*>/g`). */
module Strings {
  import opened Wrappers

  /** The characters JavaScript's `\s` and `String.prototype.trim` treat as
      white space: the WhiteSpace and LineTerminator productions. */
  predicate IsSpace(c: char) {
    || c == '\t' || c == '\n' || c == '\U{000B}' || c == '\U{000C}' || c == '\r'
    || c == ' ' || c == '\U{00A0}' || c == '\U{1680}'
    || ('\U{2000}' <= c <= '\U{200A}')
    || c == '\U{2028}' || c == '\U{2029}' || c == '\U{202F}' || c == '\U{205F}'
    || c == '\U{3000}' || c == '\U{FEFF}'
  }

  predicate NoSpace(s: string) {
    forall i :: 0 <= i < |s| ==> !IsSpace(s[i])
  }

  predicate AllSpace(s: string) {
    forall i :: 0 <= i < |s| ==> IsSpace(s[i])
  }

  /** The characters whose lower case is an ASCII letter: `A`–`Z` and the
      Kelvin sign, which lower-cases to `k`. */
  predicate IsUpper(c: char) {
    'A' <= c <= 'Z' || c == '\U{212A}'
  }

  predicate NoUpper(s: string) {
    forall i :: 0 <= i < |s| ==> !IsUpper(s[i])
  }

  // ---------------------------------------------------------------------
  // trim

  /** The end of the run of white space that starts at `i`. */
  function SpaceRunEnd(s: string, i: nat): (k: nat)
    requires i <= |s|
    ensures i <= k <= |s|
    ensures forall j :: i <= j < k ==> IsSpace(s[j])
    ensures k < |s| ==> !IsSpace(s[k])
    decreases |s| - i
  {
    if i < |s| && IsSpace(s[i]) then SpaceRunEnd(s, i + 1) else i
  }

  /** The start of the run of white space that ends at `j`, looking no
      further left than `lo`. */
  function SpaceRunStart(s: string, lo: nat, j: nat): (k: nat)
    requires lo <= j <= |s|
    ensures lo <= k <= j
    ensures forall i :: k <= i < j ==> IsSpace(s[i])
    ensures lo < k ==> !IsSpace(s[k - 1])
    decreases j
  {
    if lo < j && IsSpace(s[j - 1]) then SpaceRunStart(s, lo, j - 1) else j
  }

  /** `String.prototype.trim`: the slice of `s` between its leading and its
      trailing white space. */
  function Trim(s: string): (r: string)
    ensures r == [] || (!IsSpace(r[0]) && !IsSpace(r[|r| - 1]))
    ensures r == [] <==> AllSpace(s)
  {
    var a := SpaceRunEnd(s, 0);
    var b := SpaceRunStart(s, a, |s|);
    assert a == b ==> AllSpace(s) by {
      if a == b {
        assert a == |s|;
      }
    }
    s[a..b]
  }

  /** What trimming removes is white space, and only that: `s` is the
      trimmed text with white space on either side. */
  lemma TrimIsSlice(s: string)
    ensures var a := SpaceRunEnd(s, 0);
      && a + |Trim(s)| <= |s| && s[a..a + |Trim(s)|] == Trim(s)
      && (forall i :: 0 <= i < a ==> IsSpace(s[i]))
      && (forall i :: a + |Trim(s)| <= i < |s| ==> IsSpace(s[i]))
  {
  }

  /** A string with no space at either end is its own trim. */
  lemma TrimOfTrimmed(s: string)
    requires s == [] || (!IsSpace(s[0]) && !IsSpace(s[|s| - 1]))
    ensures Trim(s) == s
  {
    if s != [] {
      assert SpaceRunEnd(s, 0) == 0;
      assert SpaceRunStart(s, 0, |s|) == |s|;
    }
  }

  /** Trimming twice is trimming once. */
  lemma TrimIdempotent(s: string)
    ensures Trim(Trim(s)) == Trim(s)
  {
    TrimOfTrimmed(Trim(s));
  }

  // ---------------------------------------------------------------------
  // toLowerCase

  function LowerChar(c: char): (d: char)
    ensures !IsUpper(d)
    ensures IsSpace(d) <==> IsSpace(c)
    ensures !IsUpper(c) ==> d == c
  {
    if c == '\U{212A}' then 'k'
    else if IsUpper(c) then (c as int + 32) as char
    else c
  }

  /** `String.prototype.toLowerCase`, restricted to the characters that
      lower-case to an ASCII letter. */
  function Lower(s: string): (r: string)
    ensures |r| == |s|
    ensures NoUpper(r)
    ensures forall i :: 0 <= i < |s| ==> (IsSpace(r[i]) <==> IsSpace(s[i]))
    ensures NoUpper(s) ==> r == s
    ensures forall i :: 0 <= i < |s| && 'A' <= s[i] <= 'Z' ==> r[i] as int == s[i] as int + 32
    ensures forall i :: 0 <= i < |s| && s[i] == '\U{212A}' ==> r[i] == 'k'
  {
    seq(|s|, i requires 0 <= i < |s| => LowerChar(s[i]))
  }

  // ---------------------------------------------------------------------
  // includes / startsWith / indexOf

  ghost predicate OccursAt(s: string, t: string, i: int) {
    0 <= i && i + |t| <= |s| && s[i..i + |t|] == t
  }

  /** `s.indexOf(t, from)`: a position at or after `from` where `t` occurs
      in `s`, or None; `IndexFromIsFirst` shows it is the first one. */
  function IndexFrom(s: string, t: string, from: nat): (r: Option<nat>)
    requires from <= |s|
    ensures r.Some? ==> from <= r.value && OccursAt(s, t, r.value)
    decreases |s| - from
  {
    if from + |t| > |s| then None
    else if s[from..from + |t|] == t then Some(from)
    else IndexFrom(s, t, from + 1)
  }

  /** `indexOf` misses no earlier occurrence, and None means there is none. */
  lemma {:induction false} IndexFromIsFirst(s: string, t: string, from: nat)
    requires from <= |s|
    ensures IndexFrom(s, t, from).Some? ==>
      forall j :: from <= j < IndexFrom(s, t, from).value ==> !OccursAt(s, t, j)
    ensures IndexFrom(s, t, from).None? ==> forall j :: from <= j ==> !OccursAt(s, t, j)
    decreases |s| - from
  {
    if from + |t| <= |s| && s[from..from + |t|] != t {
      IndexFromIsFirst(s, t, from + 1);
    }
  }

  /** `s.includes(t)` */
  function Contains(s: string, t: string): (b: bool)
    ensures b <==> exists i :: OccursAt(s, t, i)
  {
    IndexFromIsFirst(s, t, 0);
    IndexFrom(s, t, 0).Some?
  }

  /** `s.startsWith(t)` */
  predicate StartsWith(s: string, t: string) {
    |t| <= |s| && s[..|t|] == t
  }

  /** The first position at or after `from` holding the character `c`. */
  function FindChar(s: string, c: char, from: nat): (r: Option<nat>)
    requires from <= |s|
    ensures r.Some? ==> from <= r.value < |s| && s[r.value] == c
    ensures r.Some? ==> forall j :: from <= j < r.value ==> s[j] != c
    ensures r.None? ==> forall j :: from <= j < |s| ==> s[j] != c
    decreases |s| - from
  {
    if from == |s| then None
    else if s[from] == c then Some(from)
    else FindChar(s, c, from + 1)
  }

  // ---------------------------------------------------------------------
  // replace(/\s+/g, '-')

  /** Replaces every maximal run of white space by one hyphen. */
  function CollapseSpaces(s: string): (r: string)
    ensures NoSpace(r)
    ensures forall i :: 0 <= i < |r| ==> r[i] == '-' || r[i] in s
    decreases |s|
  {
    if s == [] then []
    else if IsSpace(s[0]) then
      "-" + CollapseSpaces(s[SpaceRunEnd(s, 0)..])
    else [s[0]] + CollapseSpaces(s[1..])
  }

  /** A string without white space has no run to collapse. */
  lemma {:induction false} CollapseSpacesOfNoSpace(s: string)
    requires NoSpace(s)
    ensures CollapseSpaces(s) == s
    decreases |s|
  {
    if s != [] {
      assert NoSpace(s[1..]);
      CollapseSpacesOfNoSpace(s[1..]);
    }
  }

  /** The end of a space run depends only on the string up to the first
      character that is not a space. */
  lemma SpaceRunEndConcat(a: string, b: string)
    requires SpaceRunEnd(a, 0) < |a| || b == [] || !IsSpace(b[0])
    ensures SpaceRunEnd(a + b, 0) == SpaceRunEnd(a, 0)
  {
    var e := SpaceRunEnd(a, 0);
    assert forall j :: 0 <= j < e ==> (a + b)[j] == a[j];
    assert e < |a + b| ==> !IsSpace((a + b)[e]) by {
      if e < |a| {
        assert (a + b)[e] == a[e];
      } else if e < |a + b| {
        assert (a + b)[e] == b[0];
      }
    }
  }

  /** The replacement works piece by piece wherever the pieces do not cut
      a run of white space in two. */
  lemma {:induction false} CollapseSpacesConcat(a: string, b: string)
    requires a == [] || b == [] || !IsSpace(a[|a| - 1]) || !IsSpace(b[0])
    ensures CollapseSpaces(a + b) == CollapseSpaces(a) + CollapseSpaces(b)
    decreases |a|
  {
    if a == [] {
      assert a + b == b;
    } else if !IsSpace(a[0]) {
      assert (a + b)[0] == a[0] && (a + b)[1..] == a[1..] + b;
      CollapseSpacesConcat(a[1..], b);
    } else {
      var e := SpaceRunEnd(a, 0);
      SpaceRunEndConcat(a, b);
      assert (a + b)[e..] == a[e..] + b;
      CollapseSpacesConcat(a[e..], b);
    }
  }

  /** A whole run of white space becomes one hyphen. */
  lemma CollapseSpacesOfRun(s: string)
    requires s != [] && AllSpace(s)
    ensures CollapseSpaces(s) == "-"
  {
    assert SpaceRunEnd(s, 0) == |s|;
  }

  /** The key a section heading is filed under: the heading text trimmed,
      lower-cased, and with each run of white space turned into `-`. */
  function SectionKey(heading: string): (k: string)
    ensures NoSpace(k)
    ensures NoUpper(k)
  {
    var lowered := Lower(Trim(heading));
    var k := CollapseSpaces(lowered);
    assert NoUpper(k) by {
      forall i | 0 <= i < |k| ensures !IsUpper(k[i]) {
        if k[i] != '-' {
          var j :| 0 <= j < |lowered| && lowered[j] == k[i];
        }
      }
    }
    k
  }

  /** Normalising an already normalised key gives it back unchanged. */
  lemma SectionKeyIdempotent(heading: string)
    ensures SectionKey(SectionKey(heading)) == SectionKey(heading)
  {
    var k := SectionKey(heading);
    assert Trim(k) == k;
    CollapseSpacesOfNoSpace(k);
  }

  /** The key of a heading is the key of its trimmed text. */
  lemma SectionKeyOfTrimmed(heading: string)
    ensures SectionKey(Trim(heading)) == SectionKey(heading)
  {
    TrimIdempotent(heading);
  }

  /** A one-word heading is filed under its lower-cased text. */
  lemma SectionKeyOfWord(word: string)
    requires NoSpace(word)
    ensures SectionKey(word) == Lower(word)
  {
    var lw := Lower(word);
    assert Trim(word) == word by {
      TrimOfTrimmed(word);
    }
    assert SectionKey(word) == CollapseSpaces(lw);
    assert NoSpace(lw) by {
      assert forall i :: 0 <= i < |word| ==> (IsSpace(lw[i]) <==> IsSpace(word[i]));
    }
    CollapseSpacesOfNoSpace(lw);
  }

  /** A first word, a gap of white space and the trimmed rest of a heading:
      the key is the lower-cased word, one hyphen, and the key of the rest.
      With SectionKeyOfWord and SectionKeyOfTrimmed this fixes every key. */
  lemma SectionKeyOfWords(word: string, gap: string, rest: string)
    requires word != [] && NoSpace(word)
    requires gap != [] && AllSpace(gap)
    requires rest != [] && !IsSpace(rest[0]) && !IsSpace(rest[|rest| - 1])
    ensures SectionKey(word + gap + rest) == Lower(word) + "-" + SectionKey(rest)
  {
    var s := word + gap + rest;
    TrimOfTrimmed(s);
    TrimOfTrimmed(rest);
    assert s == word + (gap + rest);
    LowerConcat(word, gap + rest);
    LowerConcat(gap, rest);
    var lw, lg, lr := Lower(word), Lower(gap), Lower(rest);
    assert Lower(s) == lw + (lg + lr);
    assert SectionKey(s) == CollapseSpaces(lw + (lg + lr));
    assert SectionKey(rest) == CollapseSpaces(lr);
    CollapseWords(lw, lg, lr);
  }

  lemma LowerConcat(a: string, b: string)
    ensures Lower(a + b) == Lower(a) + Lower(b)
  {
  }

  lemma CollapseWords(w: string, g: string, r: string)
    requires w != [] && NoSpace(w)
    requires g != [] && AllSpace(g)
    requires r != [] && !IsSpace(r[0])
    ensures CollapseSpaces(w + (g + r)) == w + "-" + CollapseSpaces(r)
  {
    CollapseSpacesConcat(w, g + r);
    CollapseSpacesConcat(g, r);
    CollapseSpacesOfNoSpace(w);
    CollapseSpacesOfRun(g);
  }

  // ---------------------------------------------------------------------
  // split / join

  /** `s.split(sep)` for a non-empty separator: the pieces between the
      occurrences of `sep`, found left to right without overlap. */
  function Split(s: string, sep: string): (parts: seq<string>)
    requires |sep| > 0
    ensures |parts| >= 1
    decreases |s|
  {
    var found := IndexFrom(s, sep, 0);
    if found.None? then [s]
    else [s[..found.value]] + Split(s[found.value + |sep|..], sep)
  }

  /** A split yields a single piece exactly when the separator does not
      occur. */
  lemma SplitSingle(s: string, sep: string)
    requires |sep| > 0
    ensures |Split(s, sep)| == 1 <==> !Contains(s, sep)
  {
  }

  /** No piece of a split contains the separator. */
  lemma {:induction false} SplitPiecesAreFree(s: string, sep: string)
    requires |sep| > 0
    ensures forall k :: 0 <= k < |Split(s, sep)| ==> !Contains(Split(s, sep)[k], sep)
    decreases |s|
  {
    var found := IndexFrom(s, sep, 0);
    if found.Some? {
      var i := found.value;
      var rest := s[i + |sep|..];
      assert !Contains(s[..i], sep) by {
        IndexFromIsFirst(s, sep, 0);
        forall j | 0 <= j ensures !OccursAt(s[..i], sep, j) {
          if j + |sep| <= i {
            assert !OccursAt(s, sep, j);
            assert s[..i][j..j + |sep|] == s[j..j + |sep|];
          }
        }
      }
      SplitPiecesAreFree(rest, sep);
      SplitUnfold(s, sep, i);
    }
  }

  /** `parts.join(sep)` */
  function Join(parts: seq<string>, sep: string): string
  {
    if |parts| == 0 then ""
    else if |parts| == 1 then parts[0]
    else parts[0] + sep + Join(parts[1..], sep)
  }

  /** Splitting and joining back with the same separator is the identity. */
  lemma {:induction false} SplitJoin(s: string, sep: string)
    requires |sep| > 0
    ensures Join(Split(s, sep), sep) == s
    decreases |s|
  {
    var found := IndexFrom(s, sep, 0);
    if found.Some? {
      var i := found.value;
      var rest := s[i + |sep|..];
      var tail := Split(rest, sep);
      SplitJoin(rest, sep);
      var parts := [s[..i]] + tail;
      SplitUnfold(s, sep, i);
      assert parts[1..] == tail;
      Reassemble(s, sep, i);
    }
  }

  /** One step of the split: the piece before the first occurrence, then
      the split of what follows it. */
  lemma SplitUnfold(s: string, sep: string, i: nat)
    requires |sep| > 0
    requires IndexFrom(s, sep, 0) == Some(i)
    ensures Split(s, sep) == [s[..i]] + Split(s[i + |sep|..], sep)
  {
    var found := IndexFrom(s, sep, 0);
    assert found.value == i;
  }

  /** A string is the part before an occurrence, the occurrence, and the
      part after it. */
  lemma Reassemble(s: string, sep: string, i: nat)
    requires i + |sep| <= |s| && s[i..i + |sep|] == sep
    ensures s == s[..i] + sep + s[i + |sep|..]
  {
    assert s == s[..i] + s[i..i + |sep|] + s[i + |sep|..];
  }

  // ---------------------------------------------------------------------
  // replace(/<[^>]*>/g, '')

  /** A `<` somewhere before a `>`: what the tag pattern would match. */
  ghost predicate HasMarkup(s: string) {
    exists i, j :: 0 <= i < j < |s| && s[i] == '<' && s[j] == '>'
  }

  /** Removes, left to right, every `<` together with everything up to and
      including the first `>` after it; a `<` with no `>` after it stays. */
  function StripTags(s: string): (r: string)
    ensures forall i :: 0 <= i < |r| ==> r[i] in s
    ensures !HasMarkup(r)
    decreases |s|
  {
    if s == [] then []
    else if s[0] == '<' then
      match FindChar(s, '>', 1)
      case Some(j) => StripTags(s[j + 1..])
      case None =>
        var rest := StripTags(s[1..]);
        assert forall k :: 0 <= k < |rest| ==> rest[k] != '>' by {
          forall k | 0 <= k < |rest| ensures rest[k] != '>' {
            var m :| 0 <= m < |s[1..]| && s[1..][m] == rest[k];
            assert s[m + 1] == rest[k];
          }
        }
        var r := [s[0]] + rest;
        assert !HasMarkup(r) by {
          forall i, j | 0 <= i < j < |r| && r[i] == '<' ensures r[j] != '>' {
            assert r[j] == rest[j - 1];
          }
        }
        r
    else
      var rest := StripTags(s[1..]);
      var r := [s[0]] + rest;
      assert !HasMarkup(r) by {
        forall i, j | 0 <= i < j < |r| && r[i] == '<' ensures r[j] != '>' {
          assert r[i] == rest[i - 1] && r[j] == rest[j - 1];
        }
      }
      r
  }

  /** Text with no `<` before a `>` has no tag to strip. */
  lemma {:induction false} StripTagsOfUntagged(s: string)
    requires !HasMarkup(s)
    ensures StripTags(s) == s
    decreases |s|
  {
    if s != [] {
      assert !HasMarkup(s[1..]) by {
        forall i, j | 0 <= i < j < |s[1..]| && s[1..][i] == '<' ensures s[1..][j] != '>' {
          assert s[i + 1] == '<';
        }
      }
      StripTagsOfUntagged(s[1..]);
      if s[0] == '<' {
        assert FindChar(s, '>', 1).None? by {
          forall j | 1 <= j < |s| ensures s[j] != '>' {
            assert s[0] == '<';
          }
        }
      }
    }
  }

  /** Text before the first `<` is kept as it is. */
  lemma {:induction false} StripTagsKeepsText(a: string, b: string)
    requires forall i :: 0 <= i < |a| ==> a[i] != '<'
    ensures StripTags(a + b) == a + StripTags(b)
    decreases |a|
  {
    if a == [] {
      assert a + b == b;
    } else {
      assert (a + b)[0] == a[0] && (a + b)[1..] == a[1..] + b;
      StripTagsKeepsText(a[1..], b);
    }
  }

  /** A tag, from `<` to the first `>` after it, is removed whole. */
  lemma StripTagsDropsTag(t: string, b: string)
    requires forall i :: 0 <= i < |t| ==> t[i] != '>'
    ensures StripTags("<" + t + ">" + b) == StripTags(b)
  {
    var s := "<" + t + ">" + b;
    assert s[|t| + 1] == '>';
    assert forall j :: 1 <= j < |t| + 1 ==> s[j] == t[j - 1];
    assert FindChar(s, '>', 1) == Some(|t| + 1);
    assert s[|t| + 2..] == b;
  }

  /** A `<` with no `>` after it stays, with the rest. */
  lemma StripTagsKeepsUnclosed(t: string)
    requires forall i :: 0 <= i < |t| ==> t[i] != '>'
    ensures StripTags("<" + t) == "<" + t
  {
    StripTagsOfUntagged("<" + t);
  }

  /** Stripping tags twice is stripping them once. */
  lemma StripTagsIdempotent(s: string)
    ensures StripTags(StripTags(s)) == StripTags(s)
  {
    StripTagsOfUntagged(StripTags(s));
  }

  // ---------------------------------------------------------------------
  // number to decimal text

  function DigitChar(d: nat): (c: char)
    requires d < 10
    ensures '0' <= c <= '9'
  {
    ('0' as int + d) as char
  }

  /** The decimal rendering JavaScript gives a non-negative integer. */
  function NatToString(n: nat): (r: string)
    ensures |r| >= 1
    ensures |r| == 1 <==> n < 10
    ensures forall i :: 0 <= i < |r| ==> '0' <= r[i] <= '9'
    decreases n
  {
    if n < 10 then [DigitChar(n)] else NatToString(n / 10) + [DigitChar(n % 10)]
  }

  /** Different numbers render differently. */
  lemma {:induction false} NatToStringInjective(a: nat, b: nat)
    requires NatToString(a) == NatToString(b)
    ensures a == b
    decreases a
  {
    if a >= 10 {
      var ra, rb := NatToString(a), NatToString(b);
      assert ra[|ra| - 1] == DigitChar(a % 10);
      assert rb[|rb| - 1] == DigitChar(b % 10);
      assert ra[..|ra| - 1] == NatToString(a / 10);
      assert rb[..|rb| - 1] == NatToString(b / 10);
      NatToStringInjective(a / 10, b / 10);
    }
  }
}
