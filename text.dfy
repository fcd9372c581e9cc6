/**
 * The string operations the drill relies on, with JavaScript's meaning:
 * `String.prototype.trim`, `split` on a one-character separator,
 * `replace(/\s+/g, ' ')` and `toLowerCase`.
 *
 * Beside each operation sits a reference definition that does not
 * follow its code: `Join` for `Split`, and `Words` (the maximal runs of
 * non-whitespace characters) for the trim-and-collapse normalisation.
 */
module Text {
  import Collections

  /** The characters that `trim` strips and that the regular-expression
      class `\s` matches: WhiteSpace and LineTerminator of ECMAScript
      (sections 12.2 and 12.3 of ECMA-262). */
  predicate IsWs(c: char) {
    c == '\t' || c == '\n' || c == '\U{000B}' || c == '\U{000C}' || c == '\r' || c == ' '
    || c == '\U{00A0}' || c == '\U{1680}' || ('\U{2000}' <= c <= '\U{200A}')
    || c == '\U{2028}' || c == '\U{2029}' || c == '\U{202F}' || c == '\U{205F}'
    || c == '\U{3000}' || c == '\U{FEFF}'
  }

  predicate AllWs(s: string) { forall i :: 0 <= i < |s| ==> IsWs(s[i]) }

  predicate NoWs(s: string) { forall i :: 0 <= i < |s| ==> !IsWs(s[i]) }

  /** A word: a non-empty run of non-whitespace characters. */
  predicate IsWord(w: string) { w != [] && NoWs(w) }

  /** Neither end of `s` is whitespace. */
  predicate Trimmed(s: string) { s == [] || (!IsWs(s[0]) && !IsWs(s[|s| - 1])) }

  // ---------------------------------------------------------------------
  // trim

  /** `s` without its leading whitespace: a suffix of `s` that does not
      start with whitespace (`TrimLeftDropsWs` says what was dropped). */
  function TrimLeft(s: string): (r: string)
    ensures |r| <= |s| && r == s[|s| - |r|..]
    ensures r == [] || !IsWs(r[0])

  {
    if s != [] && IsWs(s[0]) then TrimLeft(s[1..]) else s
  }

  /** `s` without its trailing whitespace: a prefix of `s` that does not
      end with whitespace (`TrimRightDropsWs` says what was dropped). */
  function TrimRight(s: string): (r: string)
    ensures |r| <= |s| && r == s[..|r|]
    ensures r == [] || !IsWs(r[|r| - 1])
  {
    if s != [] && IsWs(s[|s| - 1]) then TrimRight(s[..|s| - 1]) else s
  }

  /** What `TrimLeft` drops is whitespace, and it leaves nothing exactly
      when `s` is all whitespace. */
  lemma {:induction false} TrimLeftDropsWs(s: string)
    ensures AllWs(s[..|s| - |TrimLeft(s)|])
    ensures TrimLeft(s) == [] <==> AllWs(s)
  {
    if s != [] && IsWs(s[0]) {
      var r := TrimLeft(s[1..]);
      assert TrimLeft(s) == r;
      TrimLeftDropsWs(s[1..]);
      var d := s[..|s| - |r|];
      forall i | 0 <= i < |d| ensures IsWs(d[i]) {
        if i > 0 { assert d[i] == s[1..][..|s| - 1 - |r|][i - 1]; }
      }
      if AllWs(s[1..]) {
        forall i | 0 <= i < |s| ensures IsWs(s[i]) {
          if i > 0 { assert s[i] == s[1..][i - 1]; }
        }
      }
      if AllWs(s) {
        forall i | 0 <= i < |s| - 1 ensures IsWs(s[1..][i]) {
          assert s[1..][i] == s[i + 1];
        }
      }
    }
  }

  /** What `TrimRight` drops is whitespace, and it leaves nothing exactly
      when `s` is all whitespace. */
  lemma {:induction false} TrimRightDropsWs(s: string)
    ensures AllWs(s[|TrimRight(s)|..])
    ensures TrimRight(s) == [] <==> AllWs(s)
  {
    if s != [] && IsWs(s[|s| - 1]) {
      var r := TrimRight(s[..|s| - 1]);
      TrimRightDropsWs(s[..|s| - 1]);
      assert s[|r|..] == s[..|s| - 1][|r|..] + [s[|s| - 1]];
      assert s == s[..|s| - 1] + [s[|s| - 1]];
    }
  }

  /** JavaScript's `trim`. */
  function Trim(s: string): (r: string)
    ensures Trimmed(r) && |r| <= |s|
  {
    TrimRight(TrimLeft(s))
  }

  /** `trim` leaves nothing exactly when the string is all whitespace. */
  lemma TrimEmpty(s: string)
    ensures Trim(s) == [] <==> AllWs(s)
  {
    TrimLeftDropsWs(s);
    TrimRightDropsWs(TrimLeft(s));
  }

  /** Trimming a string whose ends are not whitespace changes nothing,
      so `Trim` is idempotent. */
  lemma TrimOfTrimmed(s: string)
    requires Trimmed(s)
    ensures Trim(s) == s
  {
  }

  lemma TrimIdempotent(s: string)
    ensures Trim(Trim(s)) == Trim(s)
  {
    TrimOfTrimmed(Trim(s));
  }

  // ---------------------------------------------------------------------
  // split and its reference inverse

  /** `Array.prototype.join` with a one-character separator. */
  function Join(parts: seq<string>, sep: char): string {
    if |parts| == 0 then []
    else if |parts| == 1 then parts[0]
    else parts[0] + [sep] + Join(parts[1..], sep)
  }

  /** JavaScript's `s.split(sep)` for a one-character separator: always at
      least one part (`"".split(",")` is `[""]`), no part holds the
      separator, and joining the parts back gives `s`. */
  function Split(s: string, sep: char): (parts: seq<string>)
    ensures |parts| >= 1
    ensures forall k :: 0 <= k < |parts| ==> sep !in parts[k]
    ensures Join(parts, sep) == s
  {
    if s == [] then [[]]
    else
      var rest := Split(s[1..], sep);
      if s[0] == sep then
        assert ([[]] + rest)[1..] == rest;
        [[]] + rest
      else
        var parts := [[s[0]] + rest[0]] + rest[1..];
        assert parts[1..] == rest[1..];
        assert |rest| > 1 ==> Join(rest, sep) == rest[0] + [sep] + Join(rest[1..], sep);
        assert s == [s[0]] + s[1..];
        parts
  }

  lemma {:induction false} SplitWithoutSep(p: string, sep: char)
    requires sep !in p
    ensures Split(p, sep) == [p]
  {
    if p != [] {
      SplitWithoutSep(p[1..], sep);
      assert p == [p[0]] + p[1..];
    }
  }

  lemma {:induction false} SplitAfterPart(p: string, t: string, sep: char)
    requires sep !in p
    ensures Split(p + [sep] + t, sep) == [p] + Split(t, sep)
  {
    if p == [] {
      assert (p + [sep] + t)[1..] == t;
    } else {
      assert (p + [sep] + t)[1..] == p[1..] + [sep] + t;
      SplitAfterPart(p[1..], t, sep);
      assert p == [p[0]] + p[1..];
    }
  }

  /** Splitting undoes joining, for any non-empty list of parts none of
      which holds the separator. */
  lemma {:induction false} SplitJoin(parts: seq<string>, sep: char)
    requires |parts| >= 1
    requires forall k :: 0 <= k < |parts| ==> sep !in parts[k]
    ensures Split(Join(parts, sep), sep) == parts
  {
    if |parts| == 1 {
      SplitWithoutSep(parts[0], sep);
    } else {
      SplitJoin(parts[1..], sep);
      SplitAfterPart(parts[0], Join(parts[1..], sep), sep);
      assert [parts[0]] + parts[1..] == parts;
    }
  }

  // ---------------------------------------------------------------------
  // replace(/\s+/g, ' ') and the reference word list

  /** The longest prefix of `s` that holds no whitespace. */
  function WordPrefix(s: string): (w: string)
    ensures |w| <= |s| && w == s[..|w|] && NoWs(w)
    ensures s != [] && !IsWs(s[0]) ==> |w| >= 1
  {
    if s != [] && !IsWs(s[0]) then [s[0]] + WordPrefix(s[1..]) else []
  }

  /** The word prefix is maximal: it is all of `s`, or whitespace follows. */
  lemma {:induction false} WordPrefixMaximal(s: string)
    ensures |WordPrefix(s)| == |s| || IsWs(s[|WordPrefix(s)|])
  {
    if s != [] && !IsWs(s[0]) {
      WordPrefixMaximal(s[1..]);
    }
  }

  /** `s.replace(/\s+/g, ' ')`: each maximal run of whitespace becomes one
      space, every other character is kept. */
  function Collapse(s: string): string
    decreases |s|
  {
    if s == [] then []
    else if IsWs(s[0]) then " " + Collapse(TrimLeft(s))
    else
      var w := WordPrefix(s);
      w + Collapse(s[|w|..])
  }

  /** The input normalisation of the spelling check:
      `value.trim().replace(/\s+/g, ' ')`. */
  function Normalize(s: string): string {
    Collapse(Trim(s))
  }

  /** The first word of `s`, after its leading whitespace. */
  function FirstWord(s: string): string {
    WordPrefix(TrimLeft(s))
  }

  /** What follows the first word of `s`. */
  function AfterFirstWord(s: string): (r: string)
    ensures TrimLeft(s) != [] ==> |r| < |s|
  {
    TrimLeft(s)[|FirstWord(s)|..]
  }

  /** Reference definition: the words of `s`, that is its maximal runs of
      non-whitespace characters, in order. */
  function Words(s: string): (ws: seq<string>)
    ensures AllWords(ws)
    decreases |s|
  {
    if TrimLeft(s) == [] then []
    else
      var rest := Words(AfterFirstWord(s));
      FirstWordIsWord(s);
      AllWordsCons(FirstWord(s), rest);
      [FirstWord(s)] + rest
  }

  predicate AllWords(ws: seq<string>) { forall k :: 0 <= k < |ws| ==> IsWord(ws[k]) }

  lemma AllWordsCons(w: string, ws: seq<string>)
    requires IsWord(w) && AllWords(ws)
    ensures AllWords([w] + ws)
  {
    var r := [w] + ws;
    forall k | 0 <= k < |r| ensures IsWord(r[k]) {
      if k > 0 { assert r[k] == ws[k - 1]; }
    }
  }

  /** The first word of a string that is not all whitespace is a word. */
  lemma FirstWordIsWord(s: string)
    requires TrimLeft(s) != []
    ensures IsWord(FirstWord(s))
  {
  }

  lemma AllWsConcat(a: string, b: string)
    requires AllWs(a) && AllWs(b)
    ensures AllWs(a + b)
  {
    forall i | 0 <= i < |a + b| ensures IsWs((a + b)[i]) {
      if i < |a| { assert (a + b)[i] == a[i]; } else { assert (a + b)[i] == b[i - |a|]; }
    }
  }

  lemma {:induction false} TrimLeftAppend(s: string, z: string)
    requires TrimLeft(s) != []
    ensures TrimLeft(s + z) == TrimLeft(s) + z
  {
    if IsWs(s[0]) {
      assert TrimLeft(s) == TrimLeft(s[1..]);
      assert (s + z)[0] == s[0];
      assert (s + z)[1..] == s[1..] + z;
      TrimLeftAppend(s[1..], z);
    } else {
      assert (s + z)[0] == s[0];
    }
  }

  lemma {:induction false} WordPrefixAppend(t: string, z: string)
    requires |WordPrefix(t)| < |t| || z == [] || IsWs(z[0])
    ensures WordPrefix(t + z) == WordPrefix(t)
  {
    if t == [] {
      assert t + z == z;
    } else if !IsWs(t[0]) {
      assert (t + z)[1..] == t[1..] + z;
      WordPrefixAppend(t[1..], z);
    }
  }

  lemma BlankWithWsSuffix(s: string, z: string)
    requires AllWs(z) && TrimLeft(s) == []
    ensures Words(s + z) == [] && Words(s) == []
  {
    TrimLeftDropsWs(s);
    AllWsConcat(s, z);
    TrimLeftDropsWs(s + z);
  }

  /** Trailing whitespace changes neither the first word nor, apart from
      being carried along, what follows it. */
  lemma FirstWordWithWsSuffix(s: string, z: string)
    requires AllWs(z) && TrimLeft(s) != []
    ensures FirstWord(s + z) == FirstWord(s)
    ensures AfterFirstWord(s + z) == AfterFirstWord(s) + z
  {
    var t := TrimLeft(s);
    var w := WordPrefix(t);
    TrimLeftAppend(s, z);
    assert z != [] ==> IsWs(z[0]);
    WordPrefixAppend(t, z);
    assert FirstWord(s + z) == w;
    SliceAppend(t, z, |w|);
  }

  lemma SliceAppend(t: string, z: string, n: nat)
    requires n <= |t|
    ensures (t + z)[n..] == t[n..] + z
  {
  }

  /** Trailing whitespace does not change the words. */
  lemma {:induction false} WordsWsSuffix(s: string, z: string)
    requires AllWs(z)
    ensures Words(s + z) == Words(s)
    decreases |s|
  {
    if TrimLeft(s) == [] {
      BlankWithWsSuffix(s, z);
    } else {
      FirstWordWithWsSuffix(s, z);
      TrimLeftAppend(s, z);
      WordsWsSuffix(AfterFirstWord(s), z);
    }
  }

  lemma WordsOfTrim(s: string)
    ensures Words(Trim(s)) == Words(s)
  {
    var t := TrimLeft(s);
    var r := TrimRight(t);
    TrimRightDropsWs(t);
    var z := t[|r|..];
    SplitAt(t, |r|);
    WordsWsSuffix(r, z);
    assert Words(t) == Words(r);
    WordsTrimLeft(s);
  }

  lemma SplitAt(t: string, n: nat)
    requires n <= |t|
    ensures t == t[..n] + t[n..]
  {
  }

  lemma JoinCons(w: string, ws: seq<string>, sep: char)
    requires ws != []
    ensures Join([w] + ws, sep) == w + [sep] + Join(ws, sep)
  {
    assert ([w] + ws)[1..] == ws;
  }

  /** A string that starts with whitespace and ends without it: its
      collapse is a space and the collapse of the rest, whose ends are
      not whitespace, and its words are those of that rest. */
  lemma LeadingRun(rest: string)
    requires rest != [] && IsWs(rest[0]) && !IsWs(rest[|rest| - 1])
    ensures TrimLeft(rest) != [] && Trimmed(TrimLeft(rest))
    ensures Collapse(rest) == " " + Collapse(TrimLeft(rest))
    ensures Words(rest) == Words(TrimLeft(rest)) != []
  {
    var r2 := TrimLeft(rest);
    TrimLeftDropsWs(rest);
    assert !AllWs(rest) by { assert !IsWs(rest[|rest| - 1]); }
    assert r2[|r2| - 1] == rest[|rest| - 1];
    assert Collapse(rest) == " " + Collapse(r2);
    WordsTrimLeft(rest);
    WordsNonEmpty(rest);
  }

  /** A string that does not start with whitespace is its own `TrimLeft`. */
  lemma TrimLeftFixed(s: string)
    requires s == [] || !IsWs(s[0])
    ensures TrimLeft(s) == s
  {
  }

  /** Leading whitespace does not change the words. */
  lemma WordsTrimLeft(s: string)
    ensures Words(TrimLeft(s)) == Words(s)
  {
    var r := TrimLeft(s);
    TrimLeftFixed(r);
    assert FirstWord(r) == FirstWord(s);
    assert AfterFirstWord(r) == AfterFirstWord(s);
  }

  /** A string that is not all whitespace has a word. */
  lemma WordsNonEmpty(s: string)
    requires TrimLeft(s) != []
    ensures Words(s) != []
  {
  }

  /** A string that starts with a word: collapsing keeps that word, and it
      is the first of the words. */
  lemma WordStart(u: string)
    requires u != [] && !IsWs(u[0])
    ensures TrimLeft(u) == u
    ensures Collapse(u) == FirstWord(u) + Collapse(AfterFirstWord(u))
    ensures Words(u) == [FirstWord(u)] + Words(AfterFirstWord(u))
  {
  }

  /** In a string with no whitespace at either end, what follows the first
      word is empty or starts with whitespace and ends without it. */
  lemma AfterFirstWordOfTrimmed(u: string)
    requires Trimmed(u) && u != [] && AfterFirstWord(u) != []
    ensures IsWs(AfterFirstWord(u)[0]) && !IsWs(AfterFirstWord(u)[|AfterFirstWord(u)| - 1])
  {
    var w := WordPrefix(u);
    var rest := AfterFirstWord(u);
    assert TrimLeft(u) == u;
    WordPrefixMaximal(u);
    assert rest[0] == u[|w|];
    assert rest[|rest| - 1] == u[|u| - 1];
  }

  /** On a string with no whitespace at either end, collapsing whitespace
      runs is the same as joining its words with single spaces. */
  lemma {:induction false} CollapseTrimmed(u: string)
    requires Trimmed(u)
    ensures Collapse(u) == Join(Words(u), ' ')
    decreases |u|
  {
    if u != [] {
      var rest := AfterFirstWord(u);
      TrimLeftFixed(u);
      if rest == [] {
        WordStart(u);
        assert Collapse(u) == FirstWord(u) + [];
      } else {
        AfterFirstWordOfTrimmed(u);
        LeadingRun(rest);
        CollapseTrimmed(TrimLeft(rest));
        CollapseTrimmedStep(u);
      }
    }
  }

  /** The inductive step of `CollapseTrimmed`: the first word, one space,
      and the rest collapsed after its leading run of whitespace. */
  lemma CollapseTrimmedStep(u: string)
    requires u != [] && !IsWs(u[0]) && AfterFirstWord(u) != [] && IsWs(AfterFirstWord(u)[0])
    requires Words(AfterFirstWord(u)) == Words(TrimLeft(AfterFirstWord(u))) != []
    requires Collapse(TrimLeft(AfterFirstWord(u))) == Join(Words(TrimLeft(AfterFirstWord(u))), ' ')
    ensures Collapse(u) == Join(Words(u), ' ')
  {
    var w, rest := FirstWord(u), AfterFirstWord(u);
    var r2 := TrimLeft(rest);
    WordStart(u);
    assert Collapse(rest) == " " + Collapse(r2);
    calc {
      Collapse(u);
      w + (" " + Collapse(r2));
      { Collections.ConcatAssoc(w, " ", Collapse(r2)); }
      w + " " + Join(Words(rest), ' ');
      { JoinCons(w, Words(rest), ' '); }
      Join(Words(u), ' ');
    }
  }

  /** The normalised input is its words joined by single spaces. */
  lemma NormalizeIsJoinedWords(s: string)
    ensures Normalize(s) == Join(Words(s), ' ')
  {
    CollapseTrimmed(Trim(s));
    WordsOfTrim(s);
  }

  /** Splitting the normalised input on a space gives exactly its words,
      or the single empty token when there are none. */
  lemma NormalizedTokens(s: string)
    ensures Split(Normalize(s), ' ') == if Words(s) == [] then [""] else Words(s)
  {
    NormalizeIsJoinedWords(s);
    var ws := Words(s);
    if ws != [] {
      forall k | 0 <= k < |ws| ensures ' ' !in ws[k] {
        assert IsWord(ws[k]);
        assert IsWs(' ');
      }
      SplitJoin(ws, ' ');
    }
  }

  lemma {:induction false} WordPrefixOfWord(w: string)
    requires NoWs(w)
    ensures WordPrefix(w) == w
  {
    if w != [] {
      WordPrefixOfWord(w[1..]);
      assert w == [w[0]] + w[1..];
    }
  }

  /** A word followed by nothing or by whitespace is the first word. */
  lemma WordsCons(w: string, rest: string)
    requires IsWord(w) && (rest == [] || IsWs(rest[0]))
    ensures Words(w + rest) == [w] + Words(rest)
  {
    var s := w + rest;
    assert s[0] == w[0];
    assert TrimLeft(s) == s;
    WordPrefixOfWord(w);
    WordPrefixAppend(w, rest);
    assert s[|w|..] == rest;
  }

  /** A leading whitespace character does not change the words. */
  lemma WordsWsCons(c: char, s: string)
    requires IsWs(c)
    ensures Words([c] + s) == Words(s)
  {
    assert ([c] + s)[1..] == s;
    assert TrimLeft([c] + s) == TrimLeft(s);
  }

  lemma WordsSpacePrefix(s: string)
    ensures Words([' '] + s) == Words(s)
  {
    WordsWsCons(' ', s);
  }

  /** Leading whitespace does not change the words. */
  lemma {:induction false} WordsWsPrefix(z: string, s: string)
    requires AllWs(z)
    ensures Words(z + s) == Words(s)
  {
    if z != [] {
      assert z + s == [z[0]] + (z[1..] + s);
      assert forall i :: 0 <= i < |z[1..]| ==> z[1..][i] == z[i + 1];
      WordsWsCons(z[0], z[1..] + s);
      WordsWsPrefix(z[1..], s);
    } else {
      assert z + s == s;
    }
  }

  lemma WordsOfWord(w: string)
    requires IsWord(w)
    ensures Words(w) == [w]
  {
    WordsCons(w, []);
    assert w + [] == w;
  }

  lemma WordsOfJoinStep(w: string, tail: seq<string>)
    requires IsWord(w) && tail != [] && Words(Join(tail, ' ')) == tail
    ensures Words(Join([w] + tail, ' ')) == [w] + tail
  {
    var rest := Join(tail, ' ');
    JoinCons(w, tail, ' ');
    Collections.ConcatAssoc(w, [' '], rest);
    WordsCons(w, [' '] + rest);
    WordsSpacePrefix(rest);
  }

  lemma WordsOfJoinCons(ws: seq<string>)
    requires |ws| > 1 && IsWord(ws[0]) && Words(Join(ws[1..], ' ')) == ws[1..]
    ensures Words(Join(ws, ' ')) == ws
  {
    assert [ws[0]] + ws[1..] == ws;
    WordsOfJoinStep(ws[0], ws[1..]);
  }

  /** Reading the words back from words joined by single spaces. */
  lemma {:induction false} WordsOfJoin(ws: seq<string>)
    requires forall k :: 0 <= k < |ws| ==> IsWord(ws[k])
    ensures Words(Join(ws, ' ')) == ws
  {
    if |ws| == 0 {
      assert Join(ws, ' ') == [];
    } else if |ws| == 1 {
      assert IsWord(ws[0]);
      WordsOfWord(ws[0]);
    } else {
      assert IsWord(ws[0]);
      WordsOfJoin(ws[1..]);
      WordsOfJoinCons(ws);
    }
  }

  // ---------------------------------------------------------------------
  // toLowerCase

  /** `toLowerCase` on one character, for Basic Latin and the Latin-1
      letters (U+00C0 to U+00DE except U+00D7, which covers Ä, Ö, Ü). */
  function LowerChar(c: char): char {
    if 'A' <= c <= 'Z' || ('\U{00C0}' <= c <= '\U{00DE}' && c != '\U{00D7}') then
      (c as int + 32) as char
    else c
  }

  function Lower(s: string): (r: string)
    ensures |r| == |s|
  {
    seq(|s|, i requires 0 <= i < |s| => LowerChar(s[i]))
  }

  /** Two strings are equal ignoring case when they agree letter by letter
      after lower-casing. */
  predicate EqualsIgnoringCase(a: string, b: string) {
    Lower(a) == Lower(b)
  }

  lemma EqualsIgnoringCaseLetterwise(a: string, b: string)
    ensures EqualsIgnoringCase(a, b) <==>
              |a| == |b| && forall i :: 0 <= i < |a| ==> LowerChar(a[i]) == LowerChar(b[i])
  {
    if |a| == |b| && forall i :: 0 <= i < |a| ==> LowerChar(a[i]) == LowerChar(b[i]) {
      assert forall i :: 0 <= i < |a| ==> Lower(a)[i] == Lower(b)[i];
    }
    if EqualsIgnoringCase(a, b) {
      assert forall i :: 0 <= i < |a| ==> Lower(a)[i] == LowerChar(a[i]);
    }
  }
}
