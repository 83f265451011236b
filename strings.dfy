/** The parts of Go's `strings` package that the boot-entry parser relies on:
    `HasPrefix`, `Fields` (split around runs of white space) and `Join`. */
module Strings {

  /** Go's `unicode.IsSpace`: the Latin-1 white-space characters and the
      Unicode space separators. */
  predicate IsSpace(c: char) {
    || c == ' ' || c == '\t' || c == '\n' || c == '\U{000B}' || c == '\U{000C}' || c == '\r'
    || c == '\U{0085}' || c == '\U{00A0}' || c == '\U{1680}'
    || ('\U{2000}' <= c <= '\U{200A}')
    || c == '\U{2028}' || c == '\U{2029}' || c == '\U{202F}' || c == '\U{205F}' || c == '\U{3000}'
  }

  predicate NoSpace(s: string) {
    forall i :: 0 <= i < |s| ==> !IsSpace(s[i])
  }

  predicate HasPrefix(s: string, prefix: string) {
    |prefix| <= |s| && s[..|prefix|] == prefix
  }

  /** The characters of `s` that are not white space, in order. */
  function NonSpace(s: string): (r: string)
    ensures NoSpace(r)
  {
    if s == [] then []
    else if IsSpace(s[0]) then NonSpace(s[1..])
    else [s[0]] + NonSpace(s[1..])
  }

  function Concat(parts: seq<string>): string {
    if parts == [] then [] else parts[0] + Concat(parts[1..])
  }

  /** The longest prefix of `s` without white space. */
  function Word(s: string): (w: string)
    ensures |w| <= |s| && w == s[..|w|] && NoSpace(w)
    ensures |w| < |s| ==> IsSpace(s[|w|])
  {
    if s == [] || IsSpace(s[0]) then [] else [s[0]] + Word(s[1..])
  }

  /** Go's `strings.Fields`: the maximal runs of non-space characters of `s`.
      Every field is non-empty and free of white space, and together the
      fields hold exactly the non-space characters of `s`, in order. */
  function Fields(s: string): (fs: seq<string>)
    ensures forall i :: 0 <= i < |fs| ==> fs[i] != [] && NoSpace(fs[i])
    ensures Concat(fs) == NonSpace(s)
    decreases |s|
  {
    if s == [] then []
    else if IsSpace(s[0]) then Fields(s[1..])
    else
      var w := Word(s);
      var rest := s[|w|..];
      NonSpaceAppend(w, rest);
      NonSpaceOfWord(w);
      assert s == w + rest;
      [w] + Fields(rest)
  }

  /** Go's `strings.Join`: the parts separated by `sep`. */
  function Join(parts: seq<string>, sep: string): string {
    if parts == [] then []
    else if |parts| == 1 then parts[0]
    else parts[0] + sep + Join(parts[1..], sep)
  }

  lemma {:induction false} NonSpaceAppend(a: string, b: string)
    ensures NonSpace(a + b) == NonSpace(a) + NonSpace(b)
    decreases |a|
  {
    if a != [] {
      assert (a + b)[1..] == a[1..] + b;
      NonSpaceAppend(a[1..], b);
    } else {
      assert a + b == b;
    }
  }

  lemma {:induction false} NonSpaceOfWord(w: string)
    requires NoSpace(w)
    ensures NonSpace(w) == w
    decreases |w|
  {
    if w != [] {
      NonSpaceOfWord(w[1..]);
    }
  }

  /** A space-free word followed by white space (or nothing) is a whole word. */
  lemma {:induction false} WordOfPrefix(w: string, rest: string)
    requires NoSpace(w)
    requires rest == [] || IsSpace(rest[0])
    ensures Word(w + rest) == w
    decreases |w|
  {
    if w != [] {
      assert (w + rest)[1..] == w[1..] + rest;
      WordOfPrefix(w[1..], rest);
    } else {
      assert w + rest == rest;
    }
  }

  predicate AllSpace(s: string) {
    forall i :: 0 <= i < |s| ==> IsSpace(s[i])
  }

  /** Leading white space, however long and of whatever kind, is dropped. */
  lemma {:induction false} FieldsAfterSpace(sp: string, t: string)
    requires AllSpace(sp)
    ensures Fields(sp + t) == Fields(t)
    decreases |sp|
  {
    if sp == [] {
      assert sp + t == t;
    } else {
      assert (sp + t)[0] == sp[0];
      assert (sp + t)[1..] == sp[1..] + t;
      FieldsAfterSpace(sp[1..], t);
    }
  }

  /** A line of white space only has no fields. */
  lemma FieldsOfSpace(sp: string)
    requires AllSpace(sp)
    ensures Fields(sp) == []
  {
    FieldsAfterSpace(sp, []);
    assert sp + [] == sp;
  }

  /** The first field is the first maximal run of non-space characters:
      after any white space, a word that ends at white space (or at the end
      of the line) is split off whole, and the rest is split on its own. */
  lemma FieldsCons(sp: string, w: string, rest: string)
    requires AllSpace(sp)
    requires w != [] && NoSpace(w)
    requires rest == [] || IsSpace(rest[0])
    ensures Fields(sp + w + rest) == [w] + Fields(rest)
  {
    assert sp + w + rest == sp + (w + rest);
    FieldsAfterSpace(sp, w + rest);
    WordOfPrefix(w, rest);
    assert (w + rest)[0] == w[0];
    assert (w + rest)[|w|..] == rest;
  }

  /** Two words with white space around and between them are two fields. */
  lemma FieldsOfTwo(sp1: string, w1: string, sp2: string, w2: string, sp3: string)
    requires AllSpace(sp1) && AllSpace(sp2) && AllSpace(sp3) && sp2 != []
    requires w1 != [] && NoSpace(w1) && w2 != [] && NoSpace(w2)
    ensures Fields(sp1 + w1 + (sp2 + w2 + sp3)) == [w1, w2]
  {
    FieldsCons(sp2, w2, sp3);
    FieldsOfSpace(sp3);
    assert (sp2 + w2 + sp3)[0] == sp2[0];
    FieldsCons(sp1, w1, sp2 + w2 + sp3);
  }

  /** A line with no fields is white space only. */
  lemma {:induction false} NoFieldsAllSpace(s: string)
    requires Fields(s) == []
    ensures AllSpace(s)
    decreases |s|
  {
    if s != [] {
      assert IsSpace(s[0]);
      NoFieldsAllSpace(s[1..]);
      assert forall i :: 1 <= i < |s| ==> s[i] == s[1..][i - 1];
    }
  }

  /** The converse of `FieldsCons`: a line with a field is white space, its
      first field, and a rest that starts with white space (or is empty) and
      holds the other fields. */
  lemma {:induction false} FieldsFirst(s: string) returns (sp: string, rest: string)
    requires Fields(s) != []
    ensures AllSpace(sp) && (rest == [] || IsSpace(rest[0]))
    ensures s == sp + Fields(s)[0] + rest
    ensures Fields(rest) == Fields(s)[1..]
    decreases |s|
  {
    if IsSpace(s[0]) {
      assert Fields(s) == Fields(s[1..]);
      var sp', r := FieldsFirst(s[1..]);
      sp, rest := [s[0]] + sp', r;
      assert sp + Fields(s)[0] + rest == [s[0]] + (sp' + Fields(s)[0] + r);
      assert forall i :: 1 <= i < |sp| ==> sp[i] == sp'[i - 1];
    } else {
      var w := Word(s);
      sp, rest := [], s[|w|..];
      assert Fields(s) == [w] + Fields(rest);
      assert s == w + rest;
    }
  }

  /** The converse of `FieldsOfTwo`: a line of two fields is those two words
      with white space around them and some white space between them. */
  lemma TwoFieldsShape(s: string) returns (sp1: string, sp2: string, sp3: string)
    requires |Fields(s)| == 2
    ensures AllSpace(sp1) && AllSpace(sp2) && AllSpace(sp3) && sp2 != []
    ensures s == sp1 + Fields(s)[0] + (sp2 + Fields(s)[1] + sp3)
  {
    var rest1, rest2;
    sp1, rest1 := FieldsFirst(s);
    assert Fields(rest1) == [Fields(s)[1]];
    sp2, rest2 := FieldsFirst(rest1);
    NoFieldsAllSpace(rest2);
    sp3 := rest2;
    assert rest1[0] == (sp2 + Fields(s)[1] + rest2)[0];
  }

  /** Splitting a space-joined list of words gives the words back. */
  lemma {:induction false} FieldsOfJoin(words: seq<string>)
    requires forall i :: 0 <= i < |words| ==> words[i] != [] && NoSpace(words[i])
    ensures Fields(Join(words, " ")) == words
    decreases |words|
  {
    if |words| == 1 {
      var w := words[0];
      WordOfPrefix(w, []);
      assert w + [] == w;
      assert w[|w|..] == [];
    } else if |words| > 1 {
      var w, tail := words[0], Join(words[1..], " ");
      var s := w + " " + tail;
      WordOfPrefix(w, " " + tail);
      assert s == w + (" " + tail);
      assert s[|w|..] == " " + tail;
      assert (" " + tail)[1..] == tail;
      FieldsOfJoin(words[1..]);
      assert words == [w] + words[1..];
    }
  }
}
