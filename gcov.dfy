/** From gcov data-file names found in `.rodata` to the graph files queued for parsing. */
module Gcov {
  /** `gcno[sz - 2] = 'n'; gcno[sz - 1] = 'o';`: the last two characters are overwritten. */
  function GcnoName(gcda: string): string
    requires |gcda| >= 2
  {
    gcda[|gcda| - 2 := 'n'][|gcda| - 1 := 'o']
  }

  /** A data-file name ending in "gcda" becomes the graph-file name ending in "gcno". */
  lemma GcnoNameReplacesSuffix(stem: string)
    ensures GcnoName(stem + "gcda") == stem + "gcno"
  {
    var s := stem + "gcda";
    assert GcnoName(s)[..|stem|] == stem;
    assert GcnoName(s)[|stem|..] == "gcno";
    assert GcnoName(s) == GcnoName(s)[..|stem|] + GcnoName(s)[|stem|..];
  }

  lemma GcnoNameExample()
    ensures GcnoName("foo.gcda") == "foo.gcno"
  {
    GcnoNameReplacesSuffix("foo.");
  }

  /** Rewriting changes nothing but the last two characters. */
  lemma GcnoNameKeepsStem(gcda: string)
    requires |gcda| >= 2
    ensures |GcnoName(gcda)| == |gcda|
    ensures GcnoName(gcda)[..|gcda| - 2] == gcda[..|gcda| - 2]
    ensures GcnoName(gcda)[|gcda| - 2..] == "no"
  {
  }

  predicate AllRewritable(gcdas: seq<string>)
  {
    forall k :: 0 <= k < |gcdas| ==> |gcdas[k]| >= 2
  }

  /** The graph files the rewrite queues: those that exist, in the order of the data files. */
  function ExistingGcnoFiles(gcdas: seq<string>, fileExists: string -> bool): seq<string>
    requires AllRewritable(gcdas)
  {
    if gcdas == [] then []
    else
      var last := GcnoName(gcdas[|gcdas| - 1]);
      ExistingGcnoFiles(gcdas[..|gcdas| - 1], fileExists) + (if fileExists(last) then [last] else [])
  }

  /** A file is queued exactly when it is the rewrite of some data file and it exists. */
  lemma {:induction false} ExistingGcnoFilesIff(gcdas: seq<string>, fileExists: string -> bool, f: string)
    requires AllRewritable(gcdas)
    ensures f in ExistingGcnoFiles(gcdas, fileExists) <==>
      fileExists(f) && exists k :: 0 <= k < |gcdas| && f == GcnoName(gcdas[k])
  {
    if gcdas != [] {
      var front := gcdas[..|gcdas| - 1];
      ExistingGcnoFilesIff(front, fileExists, f);
      if fileExists(f) && exists k :: 0 <= k < |gcdas| && f == GcnoName(gcdas[k]) {
        var k :| 0 <= k < |gcdas| && f == GcnoName(gcdas[k]);
        if k < |front| {
          assert f == GcnoName(front[k]);
        }
      }
      if f in ExistingGcnoFiles(front, fileExists) {
        var k :| 0 <= k < |front| && f == GcnoName(front[k]);
        assert f == GcnoName(gcdas[k]);
      }
    }
  }

  /** When no rewritten name exists on disk, nothing is queued. */
  lemma {:induction false} NothingQueuedWhenAbsent(gcdas: seq<string>, fileExists: string -> bool)
    requires AllRewritable(gcdas)
    requires forall k :: 0 <= k < |gcdas| ==> !fileExists(GcnoName(gcdas[k]))
    ensures ExistingGcnoFiles(gcdas, fileExists) == []
  {
    if gcdas != [] {
      var front := gcdas[..|gcdas| - 1];
      assert forall k :: 0 <= k < |front| ==> front[k] == gcdas[k];
      NothingQueuedWhenAbsent(front, fileExists);
    }
  }

  lemma {:induction false} ExistingGcnoFilesAppend(a: seq<string>, b: seq<string>, fileExists: string -> bool)
    requires AllRewritable(a) && AllRewritable(b)
    ensures AllRewritable(a + b)
    ensures ExistingGcnoFiles(a + b, fileExists) == ExistingGcnoFiles(a, fileExists) + ExistingGcnoFiles(b, fileExists)
  {
    if b == [] {
      assert a + b == a;
    } else {
      assert (a + b)[..|a + b| - 1] == a + b[..|b| - 1];
      ExistingGcnoFilesAppend(a, b[..|b| - 1], fileExists);
    }
  }
}
