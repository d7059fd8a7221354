/**
 * `ContextSummarizer.summarize`: a defensive aggregator that turns an
 * optional sequence of fragments into one bounded string. Absent fragments
 * are skipped, every other fragment is converted to text and cut to its
 * first 5000 characters, the pieces are joined with newlines and the result
 * is cut to its first 20000 characters.
 *
 * Python's `str()` on a value that is not already a string is outside the
 * model: it is the parameter `show`, a total function, so converting a value
 * can never fail and always gives the same text.
 */
module ContextSummarizer {
  import opened Wrappers
  import opened Strings

  /** Characters kept from each fragment. */
  const FragmentLimit: nat := 5000
  /** Characters kept from the joined summary. */
  const SummaryLimit: nat := 20000
  /** What goes between consecutive pieces. */
  const Separator: string := "\n"

  /** One input item: `None`, a string, or any other value with a text form. */
  datatype Fragment<V> = Absent | Text(s: string) | Other(v: V)

  /** `str(chunk)` for a fragment that is not `None`; `str` of a string is itself. */
  function Stringify<V>(f: Fragment<V>, show: V -> string): (text: string)
    requires !f.Absent?
    ensures f.Text? ==> text == f.s
    ensures f.Other? ==> text == show(f.v)
  {
    match f
    case Text(s) => s
    case Other(v) => show(v)
  }

  /** What one fragment adds to the list of pieces: nothing, or its cut text. */
  function Keep<V>(f: Fragment<V>, show: V -> string): (ps: seq<string>)
    ensures f.Absent? ==> ps == []
    ensures !f.Absent? ==>
      |ps| == 1 && ps[0] <= Stringify(f, show) && |ps[0]| == Min(|Stringify(f, show)|, FragmentLimit)
  {
    if f.Absent? then [] else [Truncate(Stringify(f, show), FragmentLimit)]
  }

  /** The pieces the loop appends after processing `fs`, built as the loop builds them. */
  function Kept<V>(fs: seq<Fragment<V>>, show: V -> string): (ps: seq<string>)
    ensures |ps| <= |fs|
    ensures forall j :: 0 <= j < |ps| ==> |ps[j]| <= FragmentLimit
  {
    if fs == [] then [] else Kept(fs[..|fs| - 1], show) + Keep(fs[|fs| - 1], show)
  }

  /** The fragments that are not `None`, in input order. */
  function Present<V>(fs: seq<Fragment<V>>): (r: seq<Fragment<V>>)
    ensures |r| <= |fs|
    ensures forall j :: 0 <= j < |r| ==> !r[j].Absent?
  {
    if fs == [] then []
    else (if fs[0].Absent? then [] else [fs[0]]) + Present(fs[1..])
  }

  /** What `summarize` returns. */
  function Summary<V>(chunks: Option<seq<Fragment<V>>>, show: V -> string): (r: string)
    ensures chunks.None? ==> r == ""
    ensures chunks.Some? ==>
      var joined := Join(Kept(chunks.value, show), Separator);
      r <= joined && |r| == Min(|joined|, SummaryLimit)
    ensures |r| <= SummaryLimit
  {
    match chunks
    case None => ""
    case Some(fs) =>
      var pieces := Kept(fs, show);
      if pieces == [] then "" else Truncate(Join(pieces, Separator), SummaryLimit)
  }

  /** The loop of `summarize`, building the list of pieces step by step. */
  method Summarize<V>(chunks: Option<seq<Fragment<V>>>, show: V -> string) returns (summary: string)
    ensures summary == Summary(chunks, show)
    ensures |summary| <= SummaryLimit
  {
    if chunks.None? {
      return "";
    }
    var fs := chunks.value;
    var safeChunks: seq<string> := [];
    for i := 0 to |fs|
      invariant safeChunks == Kept(fs[..i], show)
    {
      var chunk := fs[i];
      assert fs[..i + 1][..i] == fs[..i];
      if chunk.Absent? {
        continue;
      }
      var text := Stringify(chunk, show);
      safeChunks := safeChunks + [Truncate(text, FragmentLimit)];
    }
    assert fs[..|fs|] == fs;
    if safeChunks == [] {
      return "";
    }
    var joined := Join(safeChunks, Separator);
    summary := Truncate(joined, SummaryLimit);
  }

  /** The pieces of a concatenation are the pieces of each part, in order. */
  lemma {:induction false} KeptAppend<V>(a: seq<Fragment<V>>, b: seq<Fragment<V>>, show: V -> string)
    ensures Kept(a + b, show) == Kept(a, show) + Kept(b, show)
  {
    if b == [] {
      assert a + b == a;
    } else {
      var init := b[..|b| - 1];
      assert (a + b)[..|a + b| - 1] == a + init;
      assert (a + b)[|a + b| - 1] == b[|b| - 1];
      KeptAppend(a, init, show);
    }
  }

  /**
   * The pieces correspond one to one, in order, to the fragments that are not
   * `None`: piece `j` is the text form of the `j`-th such fragment cut to its
   * first 5000 characters, so it is a prefix of that text of length
   * `min(|text|, 5000)` (the contract of `Truncate`).
   */
  lemma {:induction false} KeptMatchesPresent<V>(fs: seq<Fragment<V>>, show: V -> string)
    ensures |Kept(fs, show)| == |Present(fs)|
    ensures forall j :: 0 <= j < |Present(fs)| ==>
      Kept(fs, show)[j] == Truncate(Stringify(Present(fs)[j], show), FragmentLimit)
  {
    if fs != [] {
      var rest := fs[1..];
      assert fs == [fs[0]] + rest;
      KeptAppend([fs[0]], rest, show);
      KeptSingle(fs[0], show);
      KeptMatchesPresent(rest, show);
    }
  }

  /** Nothing is kept exactly when every fragment is `None` (the empty sequence included). */
  lemma {:induction false} NothingKeptIffAllAbsent<V>(fs: seq<Fragment<V>>, show: V -> string)
    ensures Kept(fs, show) == [] <==> forall i :: 0 <= i < |fs| ==> fs[i].Absent?
  {
    if fs != [] {
      var init := fs[..|fs| - 1];
      NothingKeptIffAllAbsent(init, show);
      assert forall i :: 0 <= i < |init| ==> init[i] == fs[i];
    }
  }

  /** A sequence of nothing but `None`s, or no fragments at all, summarizes to "". */
  lemma AllAbsentSummarizesEmpty<V>(fs: seq<Fragment<V>>, show: V -> string)
    requires forall i :: 0 <= i < |fs| ==> fs[i].Absent?
    ensures Summary(Some(fs), show) == ""
  {
    NothingKeptIffAllAbsent(fs, show);
  }

  /** A `None` anywhere in the input adds no piece. */
  lemma AbsentKeepsNothing<V>(a: seq<Fragment<V>>, b: seq<Fragment<V>>, show: V -> string)
    ensures Kept(a + [Absent] + b, show) == Kept(a, show) + Kept(b, show)
  {
    var none: seq<Fragment<V>> := [Absent];
    assert (a + none)[..|a + none| - 1] == a;
    assert Kept(a + none, show) == Kept(a, show);
    KeptAppend(a + none, b, show);
  }

  /** A `None` anywhere in the input leaves the summary unchanged. */
  lemma AbsentContributesNothing<V>(a: seq<Fragment<V>>, b: seq<Fragment<V>>, show: V -> string)
    ensures Summary(Some(a + [Absent] + b), show) == Summary(Some(a + b), show)
  {
    AbsentKeepsNothing(a, b, show);
    KeptAppend(a, b, show);
  }

  /** An empty string is not `None`: it is kept as an empty piece. */
  lemma EmptyTextIsKept<V>(a: seq<Fragment<V>>, b: seq<Fragment<V>>, show: V -> string)
    ensures Kept(a + [Text("")] + b, show) == Kept(a, show) + [""] + Kept(b, show)
  {
    var empty: seq<Fragment<V>> := [Text("")];
    KeptAppend(a + empty, b, show);
    KeptAppend(a, empty, show);
    assert empty[..0] == [];
    assert Kept(empty, show) == [""];
  }

  /**
   * Order is preserved: the summary of `a + b` is the capped text of the pieces
   * of `a`, a newline, then the pieces of `b`.
   */
  lemma SummaryOfConcatenation<V>(a: seq<Fragment<V>>, b: seq<Fragment<V>>, show: V -> string)
    requires Kept(a, show) != [] && Kept(b, show) != []
    ensures Summary(Some(a + b), show)
         == Truncate(Join(Kept(a, show), Separator) + Separator + Join(Kept(b, show), Separator), SummaryLimit)
  {
    KeptAppend(a, b, show);
    JoinAppend(Kept(a, show), Kept(b, show), Separator);
  }

  /**
   * With at most three fragments that are not `None`, the 20000 cap is never
   * reached (3 * 5000 characters plus 2 newlines), so the summary is the
   * whole join of the pieces.
   */
  lemma FewFragmentsAreNotCapped<V>(fs: seq<Fragment<V>>, show: V -> string)
    requires |Present(fs)| <= 3
    ensures Summary(Some(fs), show) == Join(Kept(fs, show), Separator)
  {
    var pieces := Kept(fs, show);
    KeptMatchesPresent(fs, show);
    SumLengthsBound(pieces, FragmentLimit);
    JoinLength(pieces, Separator);
  }

  /** A one-fragment sequence keeps what that fragment keeps. */
  lemma KeptSingle<V>(f: Fragment<V>, show: V -> string)
    ensures Kept([f], show) == Keep(f, show)
  {
  }

  /** The two text fragments `"hello"` and `"world"` keep themselves, in order. */
  lemma HelloWorldPieces<V>(show: V -> string)
    ensures Kept([Text("hello"), Text("world")], show) == ["hello", "world"]
  {
    var hello: seq<Fragment<V>> := [Text("hello")];
    var world: seq<Fragment<V>> := [Text("world")];
    assert [Text("hello"), Text("world")] == hello + world;
    KeptAppend(hello, world, show);
    KeptSingle(Text("hello"), show);
    KeptSingle(Text("world"), show);
  }

  /** `summarize(["hello", "world"]) == "hello\nworld"`. */
  lemma HelloWorld<V>(show: V -> string)
    ensures Summary(Some([Text("hello"), Text("world")]), show) == "hello\nworld"
  {
    HelloWorldPieces(show);
    var pieces := ["hello", "world"];
    assert pieces[1..] == ["world"];
    assert Join(pieces, Separator) == "hello\nworld";
  }

  /** `summarize([None, "x", None]) == "x"`. */
  lemma AbsentAroundText<V>(show: V -> string)
    ensures Summary(Some([Absent, Text("x"), Absent]), show) == "x"
  {
    var fs: seq<Fragment<V>> := [Absent, Text("x"), Absent];
    assert fs[..2] == [Absent, Text("x")];
    assert fs[..2][..1] == [Absent];
    assert fs[..2][..1][..0] == [];
    assert Kept(fs[..2][..1], show) == [];
    assert Kept(fs[..2], show) == ["x"];
    assert Kept(fs, show) == ["x"];
  }

  /** `summarize(["", ""]) == "\n"`: the emptiness check is on the list, not its content. */
  lemma TwoEmptyTexts<V>(show: V -> string)
    ensures Summary(Some([Text(""), Text("")]), show) == "\n"
  {
    var fs: seq<Fragment<V>> := [Text(""), Text("")];
    assert fs[..1] == [Text("")];
    assert fs[..1][..0] == [];
    assert Kept(fs[..1], show) == [""];
    assert Kept(fs, show) == ["", ""];
    assert Join(["", ""], Separator) == "" + "\n" + "";
  }

  /** `summarize(["a" * 6000])` is 5000 `a`s. */
  lemma LongFragmentIsCut<V>(show: V -> string)
    ensures Summary(Some([Text(seq(6000, _ => 'a'))]), show) == seq(5000, _ => 'a')
  {
  }
}
