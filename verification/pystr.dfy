/** The fragment of Python's `str` behaviour the metadata pipeline relies on:
    splitting on runs of whitespace, joining with a separator, stripping a set
    of characters from both ends, splitting on one separator character,
    lower-casing, and substring and suffix tests. Strings are sequences of
    Unicode scalar values, as Python's are sequences of code points. */
module PyStr {

  /** The characters Python's `str.split()` and `str.strip()` (without
      arguments) treat as whitespace. */
  predicate IsSpace(c: char) {
    || ('\t' <= c <= '\r')           // tab, line feed, vertical tab, form feed, carriage return
    || ('\U{1C}' <= c <= '\U{1F}')   // file, group, record and unit separators
    || c == ' '
    || c == '\U{85}' || c == '\U{A0}' || c == '\U{1680}'
    || ('\U{2000}' <= c <= '\U{200A}')
    || c == '\U{2028}' || c == '\U{2029}' || c == '\U{202F}'
    || c == '\U{205F}' || c == '\U{3000}'
  }

  predicate NoSpace(w: string) {
    forall i :: 0 <= i < |w| ==> !IsSpace(w[i])
  }

  /** A piece `str.split()` can produce: non-empty, without whitespace. */
  predicate IsWord(w: string) {
    |w| > 0 && NoSpace(w)
  }

  predicate AllWords(ws: seq<string>) {
    forall i :: 0 <= i < |ws| ==> IsWord(ws[i])
  }

  /** The characters of `s` that are not whitespace, in order. */
  function NonSpace(s: string): string {
    if s == [] then []
    else (if IsSpace(s[0]) then [] else [s[0]]) + NonSpace(s[1..])
  }

  /** Concatenation of a sequence of strings. */
  function Concat(ws: seq<string>): string {
    if ws == [] then [] else ws[0] + Concat(ws[1..])
  }

  /** The longest prefix of `s` that holds no whitespace. */
  function WordPrefix(s: string): (w: string)
    ensures |w| <= |s| && w == s[..|w|]
    ensures NoSpace(w)
    ensures |w| < |s| ==> IsSpace(s[|w|])
  {
    if s == [] || IsSpace(s[0]) then [] else [s[0]] + WordPrefix(s[1..])
  }

  /** `s.split()`: the maximal runs of non-whitespace characters, in order. */
  function Split(s: string): (ws: seq<string>)
    ensures AllWords(ws)
    decreases |s|
  {
    if s == [] then []
    else if IsSpace(s[0]) then Split(s[1..])
    else
      var w := WordPrefix(s);
      [w] + Split(s[|w|..])
  }

  /** `sep.join(ws)`. */
  function Join(sep: string, ws: seq<string>): string {
    if |ws| == 0 then []
    else if |ws| == 1 then ws[0]
    else ws[0] + sep + Join(sep, ws[1..])
  }

  /** `s.lstrip(chars)` for the set of characters `drop` accepts. */
  function TrimStart(s: string, drop: char -> bool): (r: string)
    ensures |r| <= |s| && r == s[|s| - |r|..]
    ensures forall i :: 0 <= i < |s| - |r| ==> drop(s[i])
    ensures r == [] || !drop(r[0])
  {
    if s != [] && drop(s[0]) then TrimStart(s[1..], drop) else s
  }

  /** `s.rstrip(chars)` for the set of characters `drop` accepts. */
  function TrimEnd(s: string, drop: char -> bool): (r: string)
    ensures |r| <= |s| && r == s[..|r|]
    ensures forall i :: |r| <= i < |s| ==> drop(s[i])
    ensures r == [] || !drop(r[|r| - 1])
  {
    if s != [] && drop(s[|s| - 1]) then TrimEnd(s[..|s| - 1], drop) else s
  }

  /** `s.strip(chars)` for the set of characters `drop` accepts. */
  function Trim(s: string, drop: char -> bool): string {
    TrimEnd(TrimStart(s, drop), drop)
  }

  /** `s.strip()`. */
  function Strip(s: string): string {
    Trim(s, IsSpace)
  }

  /** `s.split(c)` for a one-character separator: empty pieces are kept. */
  function SplitOn(s: string, c: char): (ps: seq<string>)
    ensures |ps| >= 1
    ensures forall i :: 0 <= i < |ps| ==> c !in ps[i]
  {
    if s == [] then [[]]
    else
      var rest := SplitOn(s[1..], c);
      if s[0] == c then [[]] + rest
      else [[s[0]] + rest[0]] + rest[1..]
  }

  /** Number of occurrences of `c` in `s`. */
  function CountChar(s: string, c: char): nat {
    multiset(s)[c]
  }

  /** Lower-casing of one character (ASCII letters only). */
  function LowerChar(c: char): char {
    if 'A' <= c <= 'Z' then (c as int - 'A' as int + 'a' as int) as char else c
  }

  /** `s.lower()`, restricted to the ASCII letters. */
  function Lower(s: string): (r: string)
    ensures |r| == |s|
    ensures forall i :: 0 <= i < |s| ==> r[i] == LowerChar(s[i])
  {
    if s == [] then [] else [LowerChar(s[0])] + Lower(s[1..])
  }

  /** `sub in s`, stated as a position where `sub` starts. */
  ghost predicate Occurs(s: string, sub: string) {
    exists i :: OccursAt(s, sub, i)
  }

  /** `sub` starts at position `i` of `s`. */
  predicate OccursAt(s: string, sub: string, i: int) {
    0 <= i <= |s| - |sub| && s[i..i + |sub|] == sub
  }

  /** `sub in s`, computed by trying each start position in turn. */
  function Contains(s: string, sub: string): (b: bool)
    ensures b <==> Occurs(s, sub)
    decreases |s|
  {
    if |sub| > |s| then false
    else if s[..|sub|] == sub then
      assert OccursAt(s, sub, 0);
      true
    else
      OccursTail(s, sub);
      Contains(s[1..], sub)
  }

  /** `s.endswith(suffix)`. */
  predicate EndsWith(s: string, suffix: string) {
    |suffix| <= |s| && s[|s| - |suffix|..] == suffix
  }

  /** When `sub` is not at the head of `s`, it occurs in `s` exactly when it
      occurs in the tail. */
  lemma OccursTail(s: string, sub: string)
    requires |sub| <= |s| && s[..|sub|] != sub
    ensures Occurs(s, sub) <==> Occurs(s[1..], sub)
  {
    if Occurs(s, sub) {
      var i :| OccursAt(s, sub, i);
      assert i != 0;
      assert s[1..][i - 1..i - 1 + |sub|] == s[i..i + |sub|];
      assert OccursAt(s[1..], sub, i - 1);
    }
    if Occurs(s[1..], sub) {
      var i :| OccursAt(s[1..], sub, i);
      assert s[i + 1..i + 1 + |sub|] == s[1..][i..i + |sub|];
      assert OccursAt(s, sub, i + 1);
    }
  }

  /** Whatever surrounds it, an occurrence stays an occurrence. */
  lemma OccursInContext(a: string, s: string, b: string, sub: string)
    requires Occurs(s, sub)
    ensures Occurs(a + s + b, sub)
  {
    var i :| OccursAt(s, sub, i);
    var t := a + s + b;
    assert t[|a| + i..|a| + i + |sub|] == s[i..i + |sub|];
    assert OccursAt(t, sub, |a| + i);
  }

  /** Lower-casing works character by character, so it distributes over
      concatenation. */
  lemma LowerAppend(a: string, b: string)
    ensures Lower(a + b) == Lower(a) + Lower(b)
  {
  }

  /** Lower-casing twice is lower-casing once. */
  lemma LowerIdempotent(s: string)
    ensures Lower(Lower(s)) == Lower(s)
  {
  }

  /** The maximal non-whitespace prefix of `w + t` is `w` when `w` holds no
      whitespace and `t` is empty or starts with whitespace. */
  lemma {:induction false} WordPrefixOf(w: string, t: string)
    requires NoSpace(w)
    requires t == [] || IsSpace(t[0])
    ensures WordPrefix(w + t) == w
  {
    if w != [] {
      assert (w + t)[1..] == w[1..] + t;
      WordPrefixOf(w[1..], t);
    }
  }

  /** `split()` undoes `' '.join` on whitespace-free, non-empty words. */
  lemma {:induction false} SplitJoin(ws: seq<string>)
    requires AllWords(ws)
    ensures Split(Join(" ", ws)) == ws
  {
    if |ws| == 1 {
      WordPrefixOf(ws[0], []);
      assert ws[0] + [] == ws[0];
      assert ws[0][|ws[0]|..] == [];
    } else if |ws| > 1 {
      SplitJoin(ws[1..]);
      SplitWordThenSpace(ws[0], Join(" ", ws[1..]));
      assert ws == [ws[0]] + ws[1..];
    }
  }

  /** A single word splits into itself. */
  lemma SplitOfWord(w: string)
    requires IsWord(w)
    ensures Split(w) == [w]
  {
    WordPrefixOf(w, []);
    assert w + [] == w;
    assert w[|w|..] == [];
  }

  /** The maximal non-whitespace prefix stops before whitespace, so text
      after a whitespace character does not change it. */
  lemma {:induction false} WordPrefixBeforeSpace(a: string, t: string)
    requires t == [] || IsSpace(t[0])
    ensures WordPrefix(a + t) == WordPrefix(a)
  {
    if a == [] {
      assert a + t == t;
    } else {
      assert (a + t)[0] == a[0] && (a + t)[1..] == a[1..] + t;
      WordPrefixBeforeSpace(a[1..], t);
    }
  }

  /** Any whitespace character separates words: the words of `a`, a
      whitespace character and `b` are the words of `a` followed by those of
      `b`. With `SplitOfWord` and `SplitEmptyIffBlank` (the empty string has
      no words) this fixes `split()` on every input, since a string is its
      words with whitespace between them. */
  lemma {:induction false} SplitAtSpace(a: string, c: char, b: string)
    requires IsSpace(c)
    ensures Split(a + [c] + b) == Split(a) + Split(b)
    decreases |a|
  {
    var s := a + [c] + b;
    if a == [] {
      assert s == [c] + b && s[1..] == b;
    } else if IsSpace(a[0]) {
      assert s[0] == a[0] && s[1..] == a[1..] + [c] + b;
      SplitAtSpace(a[1..], c, b);
    } else {
      var w := WordPrefix(a);
      SplitAtSpace(a[|w|..], c, b);
      SplitFirstWordBeforeSpace(a, c, b);
    }
  }

  /** When `a` starts with a word, so does `a`, a whitespace character and
      `b`, and what follows that word is the rest of `a`, the character and
      `b`. */
  lemma SplitFirstWordBeforeSpace(a: string, c: char, b: string)
    requires IsSpace(c) && a != [] && !IsSpace(a[0])
    ensures var w := WordPrefix(a);
      Split(a + [c] + b) == [w] + Split(a[|w|..] + [c] + b) && Split(a) == [w] + Split(a[|w|..])
  {
    var s := a + [c] + b;
    assert s == a + ([c] + b);
    WordPrefixBeforeSpace(a, [c] + b);
    var w := WordPrefix(a);
    assert s[0] == a[0] && w != [];
    assert s[|w|..] == a[|w|..] + [c] + b;
  }

  /** The words of a word, a space and more text are that word followed by
      the words of the rest. */
  lemma SplitWordThenSpace(w: string, rest: string)
    requires IsWord(w)
    ensures Split(w + " " + rest) == [w] + Split(rest)
  {
    var s := w + " " + rest;
    assert s == w + (" " + rest);
    WordPrefixOf(w, " " + rest);
    assert s[|w|..] == " " + rest;
    assert (" " + rest)[1..] == rest;
  }

  /** The first character of a join of words is the first word's first
      character. */
  lemma JoinHead(sep: string, ws: seq<string>)
    requires |ws| > 0 && |ws[0]| > 0
    ensures |Join(sep, ws)| > 0 && Join(sep, ws)[0] == ws[0][0]
  {
  }

  /** The last character of a join of words is the last word's last
      character. */
  lemma {:induction false} JoinLast(sep: string, ws: seq<string>)
    requires |ws| > 0 && |ws[|ws| - 1]| > 0
    ensures |Join(sep, ws)| > 0
    ensures Join(sep, ws)[|Join(sep, ws)| - 1] == ws[|ws| - 1][|ws[|ws| - 1]| - 1]
  {
    if |ws| > 1 {
      JoinLast(sep, ws[1..]);
    }
  }

  /** Length of a join: the pieces plus one separator between each pair. */
  lemma {:induction false} JoinLength(sep: string, ws: seq<string>)
    requires |ws| > 0
    ensures |Join(sep, ws)| == |Concat(ws)| + (|ws| - 1) * |sep|
  {
    if |ws| > 1 {
      JoinLength(sep, ws[1..]);
      assert (|ws| - 1) * |sep| == (|ws| - 2) * |sep| + |sep|;
    }
  }

  /** Dropping whitespace distributes over concatenation. */
  lemma {:induction false} NonSpaceAppend(a: string, b: string)
    ensures NonSpace(a + b) == NonSpace(a) + NonSpace(b)
  {
    if a != [] {
      var h := if IsSpace(a[0]) then [] else [a[0]];
      assert (a + b)[0] == a[0];
      assert (a + b)[1..] == a[1..] + b;
      NonSpaceAppend(a[1..], b);
      calc {
        NonSpace(a + b);
        h + NonSpace(a[1..] + b);
        h + (NonSpace(a[1..]) + NonSpace(b));
        (h + NonSpace(a[1..])) + NonSpace(b);
        NonSpace(a) + NonSpace(b);
      }
    } else {
      assert a + b == b;
    }
  }

  /** A string without whitespace keeps every character. */
  lemma {:induction false} NonSpaceOfWord(w: string)
    requires NoSpace(w)
    ensures NonSpace(w) == w
  {
    if w != [] {
      NonSpaceOfWord(w[1..]);
    }
  }

  /** `split()` loses exactly the whitespace: its words, concatenated, are
      the non-whitespace characters of the input in their original order. */
  lemma {:induction false} SplitKeepsNonSpace(s: string)
    ensures Concat(Split(s)) == NonSpace(s)
    decreases |s|
  {
    if s != [] {
      if IsSpace(s[0]) {
        SplitKeepsNonSpace(s[1..]);
      } else {
        var w := WordPrefix(s);
        SplitKeepsNonSpace(s[|w|..]);
        assert s == w + s[|w|..];
        NonSpaceAppend(w, s[|w|..]);
        NonSpaceOfWord(w);
        assert Split(s) == [w] + Split(s[|w|..]);
        assert Split(s)[1..] == Split(s[|w|..]);
      }
    }
  }

  /** `split()` finds no word exactly when the input is all whitespace. */
  lemma {:induction false} SplitEmptyIffBlank(s: string)
    ensures Split(s) == [] <==> Blank(s)
    decreases |s|
  {
    if s != [] {
      SplitEmptyIffBlank(s[1..]);
      if IsSpace(s[0]) {
        assert forall i :: 1 <= i < |s| ==> s[i] == s[1..][i - 1];
      }
    }
  }

  /** Stripping removes only characters `drop` accepts, from the ends: what
      remains is a contiguous piece of the input. */
  lemma TrimIsInfix(s: string, drop: char -> bool)
    ensures var lo := |s| - |TrimStart(s, drop)|;
            lo + |Trim(s, drop)| <= |s| && Trim(s, drop) == s[lo..lo + |Trim(s, drop)|]
  {
  }

  /** Stripping yields the empty string exactly when every character is one
      `drop` accepts; otherwise neither end of the result is such a character. */
  lemma TrimEmptyIffAllDropped(s: string, drop: char -> bool)
    ensures Trim(s, drop) == [] <==> forall i :: 0 <= i < |s| ==> drop(s[i])
    ensures Trim(s, drop) != [] ==>
              !drop(Trim(s, drop)[0]) && !drop(Trim(s, drop)[|Trim(s, drop)| - 1])
  {
    var t := TrimStart(s, drop);
    if t != [] {
      assert !drop(s[|s| - |t|]);
    }
  }

  /** Stripping never introduces a character. */
  lemma TrimSubset(s: string, drop: char -> bool, c: char)
    requires c !in s
    ensures c !in Trim(s, drop)
  {
    TrimIsInfix(s, drop);
  }

  /** Splitting on `c` and joining with `c` gives the input back. */
  lemma {:induction false} SplitOnJoin(s: string, c: char)
    ensures Join([c], SplitOn(s, c)) == s
  {
    if s != [] {
      var rest := SplitOn(s[1..], c);
      SplitOnJoin(s[1..], c);
      if s[0] == c {
        assert SplitOn(s, c) == [[]] + rest;
        assert ([[]] + rest)[1..] == rest;
        assert s == [c] + s[1..];
      } else {
        JoinConsHead([c], [s[0]], rest);
        assert s == [s[0]] + s[1..];
      }
    }
  }

  /** Prepending text to the first piece prepends it to the join. */
  lemma JoinConsHead(sep: string, x: string, ws: seq<string>)
    requires |ws| > 0
    ensures Join(sep, [x + ws[0]] + ws[1..]) == x + Join(sep, ws)
  {
    var ws' := [x + ws[0]] + ws[1..];
    if |ws| > 1 {
      assert ws'[1..] == ws[1..];
    }
  }

  /** `s.split(c)` yields one more piece than `s` has occurrences of `c`. */
  lemma {:induction false} SplitOnCount(s: string, c: char)
    ensures |SplitOn(s, c)| == CountChar(s, c) + 1
  {
    if s != [] {
      SplitOnCount(s[1..], c);
      assert s == [s[0]] + s[1..];
      assert multiset(s) == multiset([s[0]]) + multiset(s[1..]);
    }
  }

  /** A string made only of `c` and whitespace splits on `c` into blank
      pieces, and conversely. */
  lemma {:induction false} SplitOnBlank(s: string, c: char)
    ensures OnlyCharOrSpace(s, c) <==> AllBlank(SplitOn(s, c))
  {
    if s != [] {
      var rest := SplitOn(s[1..], c);
      SplitOnBlank(s[1..], c);
      OnlyCharOrSpaceCons(s, c);
      if s[0] == c {
        assert SplitOn(s, c) == [[]] + rest;
        AllBlankCons([], rest);
      } else {
        assert SplitOn(s, c) == [[s[0]] + rest[0]] + rest[1..];
        assert rest == [rest[0]] + rest[1..];
        AllBlankCons([s[0]] + rest[0], rest[1..]);
        AllBlankCons(rest[0], rest[1..]);
        BlankCons(s[0], rest[0]);
      }
    }
  }

  /** `s` holds only `c` and whitespace exactly when its head is one of
      those and its tail holds only those. */
  lemma OnlyCharOrSpaceCons(s: string, c: char)
    requires s != []
    ensures OnlyCharOrSpace(s, c) <==> (s[0] == c || IsSpace(s[0])) && OnlyCharOrSpace(s[1..], c)
  {
    assert forall i :: 1 <= i < |s| ==> s[i] == s[1..][i - 1];
  }

  /** A list of strings is all blank exactly when its head and its tail
      are. */
  lemma AllBlankCons(p: string, ps: seq<string>)
    ensures AllBlank([p] + ps) <==> Blank(p) && AllBlank(ps)
  {
    var r := [p] + ps;
    if AllBlank(r) {
      assert Blank(r[0]);
      forall j | 0 <= j < |ps| ensures Blank(ps[j]) {
        assert ps[j] == r[j + 1];
      }
    }
    if Blank(p) && AllBlank(ps) {
      forall j | 0 <= j < |r| ensures Blank(r[j]) {
        if j > 0 {
          assert r[j] == ps[j - 1];
        }
      }
    }
  }

  /** A non-empty list of strings is all blank exactly when its head and
      its tail are. */
  lemma AllBlankStep(ps: seq<string>)
    requires ps != []
    ensures AllBlank(ps) <==> Blank(ps[0]) && AllBlank(ps[1..])
  {
    assert ps == [ps[0]] + ps[1..];
    AllBlankCons(ps[0], ps[1..]);
  }

  /** A string is blank exactly when its head is whitespace and its tail is
      blank. */
  lemma BlankCons(ch: char, w: string)
    ensures Blank([ch] + w) <==> IsSpace(ch) && Blank(w)
  {
    var r := [ch] + w;
    if Blank(r) {
      assert IsSpace(r[0]);
      forall i | 0 <= i < |w| ensures IsSpace(w[i]) {
        assert w[i] == r[i + 1];
      }
    }
    if IsSpace(ch) && Blank(w) {
      forall i | 0 <= i < |r| ensures IsSpace(r[i]) {
        if i > 0 {
          assert r[i] == w[i - 1];
        }
      }
    }
  }

  /** `s` is empty or whitespace alone. */
  predicate Blank(s: string) {
    forall i :: 0 <= i < |s| ==> IsSpace(s[i])
  }

  /** Every string of `ps` is blank. */
  predicate AllBlank(ps: seq<string>) {
    forall j :: 0 <= j < |ps| ==> Blank(ps[j])
  }

  /** `s` holds nothing but `c` and whitespace. */
  predicate OnlyCharOrSpace(s: string, c: char) {
    forall i :: 0 <= i < |s| ==> s[i] == c || IsSpace(s[i])
  }
}
