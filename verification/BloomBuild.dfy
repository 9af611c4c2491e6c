/**
 Bulk build of a bloom index: tuples collect on one cached page, which is flushed when full.
 */
module BloomBuild {
  import opened BloomSignature
  import opened BloomPage

  /** The tuples of a sequence of pages, page after page. */
  ghost function Flatten(pages: seq<Page>): seq<Tuple> {
    if pages == [] then [] else Flatten(pages[..|pages| - 1]) + pages[|pages| - 1].Contents()
  }

  /** No page is free, none is empty or overfull, and a tuple more would not have fitted. */
  ghost predicate Packed(size: nat, pages: seq<Page>) {
    forall b :: 0 <= b < |pages| ==>
      pages[b].Live? && pages[b].tuples != [] && Fits(size, pages[b]) &&
      (b < |pages| - 1 ==> !Room(size, |pages[b].tuples|))
  }

  class BuildState {
    const opts: Options
    var pages: seq<Page>         // the index file: the metapage and the flushed pages
    var cached: seq<Tuple>       // tuples on the cached page
    var count: nat
    var indtuples: nat

    /** blbuild up to the heap scan: the metapage exists and the cached page is empty. */
    constructor (o: Options)
      requires o.Valid()
      ensures opts == o && pages == [Meta] && cached == [] && count == 0 && indtuples == 0
    {
      opts := o;
      pages, cached, count, indtuples := [Meta], [], 0, 0;
    }

    ghost predicate Valid()
      reads this
    {
      opts.Valid() && |pages| >= 1 && pages[0] == Meta && count == |cached| &&
      FreeSpace(TupleSize(opts), |cached|) >= 0 &&
      (|pages| > 1 ==> cached != []) &&
      Packed(TupleSize(opts), pages[1..] + if cached == [] then [] else [Live(cached)])
    }

    /** Everything handed to the build so far, in order. */
    ghost function Fed(): seq<Tuple>
      reads this
      requires Valid()
    {
      Flatten(pages[1..]) + cached
    }

    /**
     flushCachedPage: the free space map of a new index is empty, so the file is extended.  The
     file then holds, packed and in order, everything handed to the build so far.
     */
    method FlushCachedPage()
      requires Valid()
      modifies this`pages
      ensures pages == old(pages) + [Live(cached)] && pages[0] == Meta
      ensures Flatten(pages[1..]) == old(Fed())
      ensures cached != [] ==> Packed(TupleSize(opts), pages[1..])
    {
      ghost var before := pages[1..];
      pages := pages + [Live(cached)];
      assert pages[1..] == before + [Live(cached)];
      FlattenSnoc(before, Live(cached));
    }

    /** bloomBuildCallback; the error branch of the empty page is proved dead. */
    method AddTuple(t: Tuple)
      requires Valid()
      modifies this
      ensures Valid() && Fed() == old(Fed()) + [t] && indtuples == old(indtuples) + 1
    {
      var size := TupleSize(opts);
      AddFits(size, |cached|);
      if Room(size, |cached|) {
        assert pages[1..] + [Live(cached + [t])] ==
               (pages[1..] + if cached == [] then [] else [Live(cached)])[..|pages| - 1] + [Live(cached + [t])];
        cached := cached + [t];
        count := count + 1;
      } else {
        EmptyPageHasRoom(opts);
        FlushCachedPage();
        AddFits(size, 0);
        cached, count := [], 0;
        if Room(size, |cached|) {
          cached := cached + [t];
        } else {
          assert false;
        }
        count := count + 1;
      }
      indtuples := indtuples + 1;
    }

    /** blbuild: the heap scan and the final flush. */
    method Build(heap: seq<Tuple>)
      requires Valid() && pages == [Meta] && cached == [] && indtuples == 0
      modifies this
      ensures |pages| >= 1 && pages[0] == Meta
      ensures Flatten(pages[1..]) == heap
      ensures Packed(TupleSize(opts), pages[1..])
      ensures indtuples == |heap|
    {
      var i := 0;
      assert pages[1..] == [];
      while i < |heap|
        invariant 0 <= i <= |heap| && Valid()
        invariant Fed() == heap[..i] && indtuples == i
      {
        AddTuple(heap[i]);
        i := i + 1;
      }
      assert heap[..i] == heap;
      if count > 0 { FlushCachedPage(); }
    }
  }

  lemma FlattenSnoc(pages: seq<Page>, p: Page)
    ensures Flatten(pages + [p]) == Flatten(pages) + p.Contents()
  {
    assert (pages + [p])[..|pages|] == pages;
  }

  /** A built file holds the fed tuples as a multiset. */
  lemma {:induction false} FlattenAllTuples(pages: seq<Page>)
    ensures AllTuples(pages) == multiset(Flatten(pages))
  {
    if pages != [] {
      var n := |pages| - 1;
      FlattenAllTuples(pages[..n]);
      AllTuplesAppend(pages[..n], pages[n]);
      assert pages == pages[..n] + [pages[n]];
    }
  }
}
