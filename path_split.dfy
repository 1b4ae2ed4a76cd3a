/** Splitting a URL path into its non-empty segments, as the get-user example
    does before it would hand path variables to a router. Go strings are byte
    strings, so a path is a sequence of bytes and the separator is one byte. */
module PathSplit {
  import opened Types

  /** The byte '/'. */
  const Slash: byte := 47

  /** Every field between separators, empty ones included, as strings.Split
      returns them: "a//b" has the fields "a", "" and "b". This is the reference
      the loop in Split is proved against. */
  function Fields(s: seq<byte>, sep: byte): (r: seq<seq<byte>>)
    ensures |r| >= 1
    decreases |s|
  {
    if |s| == 0 then [[]]
    else if s[0] == sep then [[]] + Fields(s[1..], sep)
    else
      var f := Fields(s[1..], sep);
      [[s[0]] + f[0]] + f[1..]
  }

  /** The non-empty elements of a list of segments, in order. */
  function NonEmpty(xs: seq<seq<byte>>): seq<seq<byte>> {
    if |xs| == 0 then []
    else if xs[0] == [] then NonEmpty(xs[1..])
    else [xs[0]] + NonEmpty(xs[1..])
  }

  /** The segments of `s`: its non-empty fields. */
  function Words(s: seq<byte>, sep: byte): seq<seq<byte>> {
    NonEmpty(Fields(s, sep))
  }

  /** Fields joined back with the separator between them. */
  function Join(ws: seq<seq<byte>>, sep: byte): seq<byte>
    requires |ws| >= 1
  {
    if |ws| == 1 then ws[0] else ws[0] + [sep] + Join(ws[1..], sep)
  }

  predicate SepFree(w: seq<byte>, sep: byte) {
    forall k :: 0 <= k < |w| ==> w[k] != sep
  }

  /** A separator cuts the fields in two: the fields of what comes before it,
      then the fields of what comes after it. */
  lemma {:induction false} FieldsAppend(a: seq<byte>, sep: byte, b: seq<byte>)
    ensures Fields(a + [sep] + b, sep) == Fields(a, sep) + Fields(b, sep)
    decreases |a|
  {
    if |a| == 0 {
      assert a + [sep] + b == [sep] + b;
      FieldsCons(sep, sep, b);
    } else {
      var t := a[1..];
      assert a + [sep] + b == [a[0]] + (t + [sep] + b);
      assert a == [a[0]] + t;
      FieldsAppend(t, sep, b);
      FieldsCons(a[0], sep, t + [sep] + b);
      FieldsCons(a[0], sep, t);
    }
  }

  /** One byte in front: a separator opens a new field, any other byte joins
      the first field. */
  lemma FieldsCons(c: byte, sep: byte, t: seq<byte>)
    ensures c == sep ==> Fields([c] + t, sep) == [[]] + Fields(t, sep)
    ensures c != sep ==> Fields([c] + t, sep) == [[c] + Fields(t, sep)[0]] + Fields(t, sep)[1..]
  {
    assert ([c] + t)[0] == c && ([c] + t)[1..] == t;
  }

  /** A stretch without the separator is a single field. */
  lemma {:induction false} FieldsOfWord(w: seq<byte>, sep: byte)
    requires SepFree(w, sep)
    ensures Fields(w, sep) == [w]
    decreases |w|
  {
    if |w| > 0 {
      FieldsOfWord(w[1..], sep);
      assert [w[0]] + w[1..] == w;
    }
  }

  /** Every field is free of the separator. */
  lemma {:induction false} FieldsSepFree(s: seq<byte>, sep: byte)
    ensures forall i :: 0 <= i < |Fields(s, sep)| ==> SepFree(Fields(s, sep)[i], sep)
    decreases |s|
  {
    if |s| > 0 {
      FieldsSepFree(s[1..], sep);
      if s[0] != sep {
        var f := Fields(s[1..], sep);
        assert SepFree(f[0], sep);
        assert SepFree([s[0]] + f[0], sep);
      }
    }
  }

  /** Joining the fields gives the input back. */
  lemma {:induction false} JoinFields(s: seq<byte>, sep: byte)
    ensures Join(Fields(s, sep), sep) == s
    decreases |s|
  {
    if |s| > 0 {
      var t := s[1..];
      assert s == [s[0]] + t;
      JoinFields(t, sep);
      FieldsCons(s[0], sep, t);
      var f := Fields(t, sep);
      if s[0] == sep {
        assert Join([[]] + f, sep) == [sep] + Join(f, sep);
      } else if |f| == 1 {
        assert Join([[s[0]] + f[0]], sep) == [s[0]] + f[0];
      } else {
        var g := [[s[0]] + f[0]] + f[1..];
        assert g[1..] == f[1..];
        assert Join(g, sep) == [s[0]] + (f[0] + [sep] + Join(f[1..], sep));
      }
    }
  }

  /** Splitting what Join produced gives the parts back, when no part holds the separator. */
  lemma {:induction false} FieldsOfJoin(ws: seq<seq<byte>>, sep: byte)
    requires |ws| >= 1
    requires forall i :: 0 <= i < |ws| ==> SepFree(ws[i], sep)
    ensures Fields(Join(ws, sep), sep) == ws
    decreases |ws|
  {
    FieldsOfWord(ws[0], sep);
    if |ws| > 1 {
      FieldsOfJoin(ws[1..], sep);
      FieldsAppend(ws[0], sep, Join(ws[1..], sep));
      assert [ws[0]] + ws[1..] == ws;
    }
  }

  lemma {:induction false} NonEmptyAppend(xs: seq<seq<byte>>, ys: seq<seq<byte>>)
    ensures NonEmpty(xs + ys) == NonEmpty(xs) + NonEmpty(ys)
    decreases |xs|
  {
    if |xs| > 0 {
      assert (xs + ys)[0] == xs[0];
      assert (xs + ys)[1..] == xs[1..] + ys;
      NonEmptyAppend(xs[1..], ys);
      if xs[0] != [] {
        assert NonEmpty(xs + ys) == [xs[0]] + NonEmpty(xs[1..] + ys);
        assert NonEmpty(xs) == [xs[0]] + NonEmpty(xs[1..]);
      }
    } else {
      assert xs + ys == ys;
    }
  }

  /** NonEmpty keeps exactly the non-empty elements, in order: what it returns
      has no empty element, and a list with no empty element is kept whole. */
  lemma {:induction false} NonEmptySpec(xs: seq<seq<byte>>)
    ensures forall i :: 0 <= i < |NonEmpty(xs)| ==> NonEmpty(xs)[i] != []
    ensures (forall i :: 0 <= i < |xs| ==> xs[i] != []) ==> NonEmpty(xs) == xs
    ensures forall w :: w in NonEmpty(xs) ==> w in xs
    decreases |xs|
  {
    if |xs| > 0 {
      NonEmptySpec(xs[1..]);
      if xs[0] != [] {
        assert [xs[0]] + xs[1..] == xs;
      }
    }
  }

  /** A separator splits the segments: those of the stretch before it (itself,
      when non-empty) followed by those of the rest. */
  lemma WordsAfterSep(w: seq<byte>, sep: byte, b: seq<byte>)
    requires SepFree(w, sep)
    ensures Words(w + [sep] + b, sep) == NonEmpty([w]) + Words(b, sep)
  {
    FieldsAppend(w, sep, b);
    FieldsOfWord(w, sep);
    NonEmptyAppend([w], Fields(b, sep));
  }

  lemma WordsOfWord(w: seq<byte>, sep: byte)
    requires SepFree(w, sep)
    ensures Words(w, sep) == NonEmpty([w])
  {
    FieldsOfWord(w, sep);
  }

  /** Every segment is non-empty, holds no separator, and is a field of the input. */
  lemma WordsShape(s: seq<byte>, sep: byte)
    ensures forall i :: 0 <= i < |Words(s, sep)| ==> Words(s, sep)[i] != [] && SepFree(Words(s, sep)[i], sep)
  {
    FieldsSepFree(s, sep);
    NonEmptySpec(Fields(s, sep));
    forall i | 0 <= i < |Words(s, sep)|
      ensures SepFree(Words(s, sep)[i], sep)
    {
      var w := Words(s, sep)[i];
      assert w in Fields(s, sep);
    }
  }

  /** The segments of a separator-joined list of non-empty, separator-free parts
      are those parts. */
  lemma WordsOfJoin(ws: seq<seq<byte>>, sep: byte)
    requires |ws| >= 1
    requires forall i :: 0 <= i < |ws| ==> ws[i] != [] && SepFree(ws[i], sep)
    ensures Words(Join(ws, sep), sep) == ws
  {
    FieldsOfJoin(ws, sep);
    NonEmptySpec(ws);
  }

  predicate AllSep(s: seq<byte>, sep: byte) {
    forall k :: 0 <= k < |s| ==> s[k] == sep
  }

  /** A path has no segment exactly when it consists of separators only
      (the empty path included). */
  lemma {:induction false} NoWordsIffAllSep(s: seq<byte>, sep: byte)
    ensures Words(s, sep) == [] <==> AllSep(s, sep)
    decreases |s|
  {
    if |s| > 0 {
      NoWordsIffAllSep(s[1..], sep);
      var f := Fields(s[1..], sep);
      if s[0] == sep {
        var g := Fields(s, sep);
        assert g[0] == [] && g[1..] == f;
        assert Words(s, sep) == NonEmpty(f);
        assert AllSep(s, sep) <==> AllSep(s[1..], sep);
      } else {
        var g := Fields(s, sep);
        assert g[0] == [s[0]] + f[0];
        assert g[0] != [];
        assert Words(s, sep) == [g[0]] + NonEmpty(g[1..]);
        assert !AllSep(s, sep);
      }
    } else {
      assert Fields(s, sep) == [[]];
      assert NonEmpty([[]]) == NonEmpty([[]][1..]);
    }
  }

  /** split(s, sep): a scan that cuts `s` at every separator and keeps the
      non-empty pieces. */
  method Split(s: seq<byte>, sep: byte) returns (parts: seq<seq<byte>>)
    ensures parts == Words(s, sep)
  {
    parts := [];
    var start := 0;
    for i := 0 to |s|
      invariant 0 <= start <= i
      invariant SepFree(s[start..i], sep)
      invariant Words(s, sep) == parts + Words(s[start..], sep)
    {
      if s[i] == sep {
        assert s[start..] == s[start..i] + [sep] + s[i + 1..];
        WordsAfterSep(s[start..i], sep, s[i + 1..]);
        if i > start {
          parts := parts + [s[start..i]];
        }
        start := i + 1;
      } else {
        assert s[start..i + 1] == s[start..i] + [s[i]];
      }
    }
    assert s[start..] == s[start..|s|];
    WordsOfWord(s[start..], sep);
    if start < |s| {
      parts := parts + [s[start..]];
    }
  }

  /** splitPath(path): the segments of `path` between slashes, empty ones
      dropped. */
  method SplitPath(path: seq<byte>) returns (parts: seq<seq<byte>>)
    ensures parts == Words(path, Slash)
    ensures forall i :: 0 <= i < |parts| ==> parts[i] != [] && SepFree(parts[i], Slash)
  {
    var pieces := Split(path, Slash);
    parts := [];
    for k := 0 to |pieces|
      invariant parts == NonEmpty(pieces[..k])
    {
      assert pieces[..k + 1] == pieces[..k] + [pieces[k]];
      NonEmptyAppend(pieces[..k], [pieces[k]]);
      if pieces[k] != [] {
        parts := parts + [pieces[k]];
      }
    }
    assert pieces[..|pieces|] == pieces;
    WordsShape(path, Slash);
    NonEmptySpec(Fields(path, Slash));
    NonEmptySpec(pieces);
  }
}
