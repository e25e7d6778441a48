/** The file-name logic around the metadata record: `Path(filename).suffix`
    for the `file_type` field, and the choice of text extractor by the
    lower-cased name's ending. Paths are POSIX paths. */
module FileName {
  import opened PyStr

  /** The components `PurePosixPath` keeps: the pieces between slashes, with
      empty pieces and "." dropped. */
  function Components(ps: seq<string>): (cs: seq<string>)
    ensures |cs| <= |ps|
    ensures forall i :: 0 <= i < |cs| ==> cs[i] != [] && cs[i] != "."
  {
    if ps == [] then []
    else (if ps[0] == [] || ps[0] == "." then [] else [ps[0]]) + Components(ps[1..])
  }

  /** `Path(path).name`: the last kept component, or "" when there is none. */
  function Name(path: string): (n: string)
    ensures '/' !in n && n != "."
  {
    var cs := Components(SplitOn(path, '/'));
    if cs == [] then [] else
      var k := |SplitOn(path, '/')|;
      assert forall i :: 0 <= i < k ==> '/' !in SplitOn(path, '/')[i];
      ComponentsFrom(SplitOn(path, '/'), '/');
      cs[|cs| - 1]
  }

  /** Kept components are pieces, so they lack whatever no piece holds. */
  lemma {:induction false} ComponentsFrom(ps: seq<string>, c: char)
    requires forall i :: 0 <= i < |ps| ==> c !in ps[i]
    ensures forall i :: 0 <= i < |Components(ps)| ==> c !in Components(ps)[i]
  {
    if ps != [] {
      ComponentsFrom(ps[1..], c);
      var head := if ps[0] == [] || ps[0] == "." then [] else [ps[0]];
      assert Components(ps) == head + Components(ps[1..]);
    }
  }

  /** `s.rfind(c)`: the last position holding `c`, or -1. */
  function LastIndexOf(s: string, c: char): (i: int)
    ensures -1 <= i < |s|
    ensures i >= 0 ==> s[i] == c
    ensures forall j :: i < j < |s| ==> s[j] != c
  {
    if s == [] then -1
    else if s[|s| - 1] == c then |s| - 1
    else LastIndexOf(s[..|s| - 1], c)
  }

  /** `Path(path).suffix`: from the last period of the name to its end, when
      that period is neither the first nor the last character of the name. */
  function Suffix(path: string): (r: string)
    ensures r == [] || (|r| >= 2 && r[0] == '.' && '.' !in r[1..] && '/' !in r)
    ensures EndsWith(Name(path), r)
    ensures r != [] ==> |r| < |Name(path)|
    ensures var n := Name(path);
      r != [] <==> n != [] && n[|n| - 1] != '.' && exists i :: 0 < i < |n| && n[i] == '.'
  {
    var n := Name(path);
    var i := LastIndexOf(n, '.');
    if 0 < i < |n| - 1 then
      assert forall j :: 0 <= j < |n[i..]| ==> n[i..][j] == n[i + j];
      n[i..]
    else
      []
  }

  /** Splitting at a separator splits the pieces on either side of it. */
  lemma {:induction false} SplitOnAppend(a: string, b: string, c: char)
    ensures SplitOn(a + [c] + b, c) == SplitOn(a, c) + SplitOn(b, c)
  {
    var s := a + [c] + b;
    if a == [] {
      assert s[1..] == b;
    } else {
      assert s[0] == a[0] && s[1..] == a[1..] + [c] + b;
      SplitOnAppend(a[1..], b, c);
      PiecesAppend(a[0], c, SplitOn(a[1..], c), SplitOn(b, c));
    }
  }

  /** The step of `split(c)` on a first character `x` commutes with
      appending further pieces. */
  lemma PiecesAppend(x: char, c: char, pa: seq<string>, pb: seq<string>)
    requires |pa| >= 1
    ensures (if x == c then [[]] + (pa + pb) else [[x] + (pa + pb)[0]] + (pa + pb)[1..])
         == (if x == c then [[]] + pa else [[x] + pa[0]] + pa[1..]) + pb
  {
    assert (pa + pb)[0] == pa[0] && (pa + pb)[1..] == pa[1..] + pb;
  }

  /** Splitting a string without the separator leaves it whole. */
  lemma {:induction false} SplitOnAbsent(s: string, c: char)
    requires c !in s
    ensures SplitOn(s, c) == [s]
  {
    if s != [] {
      SplitOnAbsent(s[1..], c);
      assert [s[0]] + s[1..] == s;
    }
  }

  /** Dropping components commutes with concatenation. */
  lemma {:induction false} ComponentsAppend(ps: seq<string>, qs: seq<string>)
    ensures Components(ps + qs) == Components(ps) + Components(qs)
  {
    if ps != [] {
      ComponentsAppend(ps[1..], qs);
      var head := if ps[0] == [] || ps[0] == "." then [] else [ps[0]];
      assert (ps + qs)[1..] == ps[1..] + qs;
      assert Components(ps + qs) == head + Components(ps[1..] + qs);
      assert Components(ps) == head + Components(ps[1..]);
    } else {
      assert ps + qs == qs;
    }
  }

  /** The name of `dir/name` is `name`, whatever the directory part, when
      `name` is a genuine file name. */
  lemma NameAfterDirectory(dir: string, name: string)
    requires name != [] && name != "." && '/' !in name
    ensures Name(dir + "/" + name) == name
  {
    SplitOnAppend(dir, name, '/');
    SplitOnAbsent(name, '/');
    ComponentsAppend(SplitOn(dir, '/'), [name]);
    assert Components([name]) == [name] + Components([]);
  }

  /** A bare file name is its own name. */
  lemma NameOfBareName(name: string)
    requires name != [] && name != "." && '/' !in name
    ensures Name(name) == name
  {
    SplitOnAbsent(name, '/');
    assert Components([name]) == [name] + Components([]);
  }

  /** The suffix of `stem.ext`, for a non-empty stem and an extension with
      no period or slash, is `.ext`: the name splits back into stem and
      suffix. */
  lemma SuffixOfStemAndExtension(stem: string, ext: string)
    requires stem != [] && '/' !in stem
    requires ext != [] && '.' !in ext && '/' !in ext
    ensures Suffix(stem + "." + ext) == "." + ext
  {
    var n := stem + "." + ext;
    assert '/' !in n by {
      assert forall j :: 0 <= j < |n| ==> n[j] == (if j < |stem| then stem[j] else if j == |stem| then '.' else ext[j - |stem| - 1]);
    }
    assert n != ".";
    NameOfBareName(n);
    var i := LastIndexOf(n, '.');
    assert n[|stem|] == '.';
    assert forall j :: |stem| < j < |n| ==> n[j] == ext[j - |stem| - 1];
    assert i == |stem|;
    assert n[i..] == "." + ext;
  }

  /** The extractor chosen for an uploaded file. */
  datatype Extractor =
    | PdfReader   // `extract_pdf_text`
    | DocxReader  // `extract_docx_text`
    | RawDecode   // the upload's bytes decoded as UTF-8, ignoring errors

  /** Whether `name.lower()` ends with `ext`. */
  predicate HasExtension(name: string, ext: string) {
    EndsWith(Lower(name), ext)
  }

  /** The branch on `uploaded_file.name.lower().endswith(...)`. */
  function ChooseExtractor(name: string): (e: Extractor)
    ensures e == PdfReader <==> HasExtension(name, ".pdf")
    ensures e == DocxReader <==> HasExtension(name, ".docx")
    ensures e == RawDecode <==> !HasExtension(name, ".pdf") && !HasExtension(name, ".docx")
  {
    ExtensionsExclusive(name);
    if HasExtension(name, ".pdf") then PdfReader
    else if HasExtension(name, ".docx") then DocxReader
    else RawDecode
  }

  /** No name ends both with ".pdf" and with ".docx", so the order of the
      two tests does not matter. */
  lemma ExtensionsExclusive(name: string)
    ensures !(HasExtension(name, ".pdf") && HasExtension(name, ".docx"))
  {
    var l := Lower(name);
    assert HasExtension(name, ".pdf") ==> l[|l| - 1] == ".pdf"[3];
    assert HasExtension(name, ".docx") ==> l[|l| - 1] == ".docx"[4];
  }

  /** The choice ignores case: a name and its lower-cased form go to the
      same extractor. */
  lemma ChooseExtractorIgnoresCase(name: string)
    ensures ChooseExtractor(Lower(name)) == ChooseExtractor(name)
  {
    LowerIdempotent(name);
  }

  /** The choice depends on the name's ending only. */
  lemma ChooseExtractorByEnding(dir: string, name: string)
    requires |name| >= 5
    ensures ChooseExtractor(dir + name) == ChooseExtractor(name)
  {
    HasExtensionAfter(dir, name, ".pdf");
    HasExtensionAfter(dir, name, ".docx");
  }

  /** Text written before a name long enough to hold an extension does not
      change whether the name has it. */
  lemma HasExtensionAfter(dir: string, name: string, ext: string)
    requires |ext| <= |name|
    ensures HasExtension(dir + name, ext) <==> HasExtension(name, ext)
  {
    LowerAppend(dir, name);
    EndsWithAfter(Lower(dir), Lower(name), ext);
  }

  /** Whether a string ends with something no longer than its last part
      depends on that part alone. */
  lemma EndsWithAfter(a: string, b: string, e: string)
    requires |e| <= |b|
    ensures EndsWith(a + b, e) <==> EndsWith(b, e)
  {
    assert (a + b)[|a + b| - |e|..] == b[|b| - |e|..];
  }
}
