/**
  The strip-params sanitizer: a comma-separated directive becomes the ascending
  list of the distinct, trimmed, non-empty parameter names it mentions, without
  the name `model`.
 */
module Filters {
  import opened Text
  import opened Config

  /** The one name the sanitizer never returns: a request's model is never stripped. */
  const ModelParam: string := "model"

  /** A trimmed piece the sanitizer keeps. */
  predicate Kept(t: string) {
    t != [] && t != ModelParam
  }

  /** The trimmed pieces that are kept, in input order, repeats included. */
  function Cleaned(pieces: seq<string>): seq<string>
    decreases |pieces|
  {
    if pieces == [] then []
    else
      var t := Trim(pieces[0]);
      (if Kept(t) then [t] else []) + Cleaned(pieces[1..])
  }

  /** `Cleaned` keeps exactly the trimmed pieces that are neither empty nor `model`. */
  lemma {:induction false} CleanedMembers(pieces: seq<string>)
    ensures forall t :: t in Cleaned(pieces) <==> exists p :: p in pieces && t == Trim(p) && Kept(t)
    decreases |pieces|
  {
    if pieces != [] {
      CleanedMembers(pieces[1..]);
      assert forall p :: p in pieces <==> p == pieces[0] || p in pieces[1..];
    }
  }

  /** Every element of a strictly sorted sequence after its head is greater than the head. */
  lemma HeadLeast(xs: seq<string>, y: string)
    requires StrictlySorted(xs) && xs != [] && y in xs[1..]
    ensures Less(xs[0], y)
  {
    var k :| 0 <= k < |xs[1..]| && xs[1..][k] == y;
    assert xs[k + 1] == y;
  }

  /** Adds `x` to an ascending duplicate-free list, keeping it so. */
  function Insert(xs: seq<string>, x: string): (r: seq<string>)
    requires StrictlySorted(xs)
    ensures StrictlySorted(r)
    ensures forall y :: y in r <==> y in xs || y == x
    decreases |xs|
  {
    if xs == [] then [x]
    else if x == xs[0] then xs
    else if Less(x, xs[0]) then
      assert forall j :: 0 < j < |xs| ==> Less(x, xs[j]) by {
        forall j | 0 < j < |xs| ensures Less(x, xs[j]) {
          LessTransitive(x, xs[0], xs[j]);
        }
      }
      [x] + xs
    else
      var rest := Insert(xs[1..], x);
      assert forall y :: y in rest ==> Less(xs[0], y) by {
        forall y | y in rest ensures Less(xs[0], y) {
          if y == x {
            LessTotal(x, xs[0]);
          } else {
            HeadLeast(xs, y);
          }
        }
      }
      assert forall j :: 0 <= j < |rest| ==> rest[j] in rest;
      assert forall y :: y in xs <==> y == xs[0] || y in xs[1..];
      [xs[0]] + rest
  }

  /** The distinct elements of `xs` in ascending order. */
  function SortedSet(xs: seq<string>): (r: seq<string>)
    ensures StrictlySorted(r)
    ensures forall y :: y in r <==> y in xs
    decreases |xs|
  {
    if xs == [] then []
    else
      assert xs == xs[..|xs| - 1] + [xs[|xs| - 1]];
      Insert(SortedSet(xs[..|xs| - 1]), xs[|xs| - 1])
  }

  /** `SanitizedStripParams` of the record's filters: ascending, duplicate-free,
      and made of exactly the kept trimmed pieces between the commas. */
  function SanitizedStripParams(f: ModelFilters): (params: seq<string>)
    ensures StrictlySorted(params)
    ensures forall t :: t in params ==> Kept(t) && Trimmed(t) && ',' !in t
    ensures forall t :: t in params <==>
              exists p :: p in Split(f.stripParams, ',') && t == Trim(p) && Kept(t)
  {
    CleanedMembers(Split(f.stripParams, ','));
    SplitPiecesFree(f.stripParams, ',');
    assert forall p :: p in Split(f.stripParams, ',') ==> ',' !in Trim(p) by {
      forall p | p in Split(f.stripParams, ',') ensures ',' !in Trim(p) {
        TrimKeepsAbsent(p, ',');
      }
    }
    SortedSet(Cleaned(Split(f.stripParams, ',')))
  }

  lemma HeadsEqual(xs: seq<string>, ys: seq<string>)
    requires StrictlySorted(xs) && StrictlySorted(ys) && xs != [] && ys != []
    requires forall y :: y in xs <==> y in ys
    ensures xs[0] == ys[0]
  {
    assert xs[0] in xs && ys[0] in ys;
    if xs[0] != ys[0] {
      assert xs[0] in ys[1..];
      assert ys[0] in xs[1..];
      HeadLeast(ys, xs[0]);
      HeadLeast(xs, ys[0]);
      LessAsymmetric(xs[0], ys[0]);
      assert false;
    }
  }

  /** A strictly ascending list is determined by its elements. */
  lemma {:induction false} SortedUnique(xs: seq<string>, ys: seq<string>)
    requires StrictlySorted(xs) && StrictlySorted(ys)
    requires forall y :: y in xs <==> y in ys
    ensures xs == ys
    decreases |xs|
  {
    if xs == [] {
      assert ys == [] by {
        assert forall k :: 0 <= k < |ys| ==> ys[k] in ys;
      }
    } else {
      assert ys != [] by {
        assert xs[0] in xs;
      }
      HeadsEqual(xs, ys);
      forall y ensures y in xs[1..] <==> y in ys[1..] {
        assert y in xs <==> y == xs[0] || y in xs[1..];
        assert y in ys <==> y == ys[0] || y in ys[1..];
        if y in xs[1..] {
          HeadLeast(xs, y);
          LessIrreflexive(y);
        }
        if y in ys[1..] {
          HeadLeast(ys, y);
          LessIrreflexive(y);
        }
      }
      SortedUnique(xs[1..], ys[1..]);
      assert xs == [xs[0]] + xs[1..] && ys == [ys[0]] + ys[1..];
    }
  }

  /** Two directives that mention the same kept names sanitize to the same list,
      whatever their order and however often each name is repeated. */
  lemma SanitizedSameNames(f: ModelFilters, g: ModelFilters)
    requires forall t :: t in Cleaned(Split(f.stripParams, ',')) <==> t in Cleaned(Split(g.stripParams, ','))
    ensures SanitizedStripParams(f) == SanitizedStripParams(g)
  {
    SortedUnique(SanitizedStripParams(f), SanitizedStripParams(g));
  }

  /** Names that are already trimmed and kept pass through `Cleaned` unchanged as a set. */
  lemma {:induction false} CleanedOfNames(names: seq<string>)
    requires forall t :: t in names ==> Kept(t) && Trimmed(t)
    ensures forall t :: t in Cleaned(names) <==> t in names
  {
    CleanedMembers(names);
    forall t | t in names ensures Trim(t) == t {
      assert [] + t + [] == t;
      TrimPadded([], t, []);
    }
  }

  /** Sanitizing the comma-joined result of a sanitization changes nothing. */
  lemma SanitizedIdempotent(f: ModelFilters)
    ensures SanitizedStripParams(ModelFilters(Join(SanitizedStripParams(f), ','))) == SanitizedStripParams(f)
  {
    var params := SanitizedStripParams(f);
    var again := SanitizedStripParams(ModelFilters(Join(params, ',')));
    if params == [] {
      assert Join(params, ',') == [];
      assert Trim([]) == [];
      assert Cleaned([[]]) == [];
    } else {
      SplitJoin(params, ',');
      CleanedOfNames(params);
      SortedUnique(again, params);
    }
  }

  // ---------------------------------------------------------------------------
  // The worked example of the filter tests: the directive after macro expansion
  // is "model, top_k, top_k, temperature, temperature, top_p, , ,".
  // (The literal is written in parts; each part is a plain string constant.)

  lemma TrimOneSpace(s: string, core: string)
    requires Trimmed(core) && s == " " + core
    ensures Trim(s) == core
  {
    assert s == " " + core + "";
    TrimPadded(" ", core, "");
  }

  /** The pieces between the commas of the example directive. */
  lemma ExampleSplit(raw: string)
    requires raw == "model, top_k, top_k, " + "temperature, " + "temperature, top_p" + ", , ,"
    ensures Split(raw, ',') == ["model", " top_k", " top_k", " temperature", " temperature", " top_p", " ", " ", ""]
  {
    var a, b, c, d := "model, top_k, top_k, ", "temperature, ", "temperature, top_p", ", , ,";
    var pa, pb, pc, pd := ["model", " top_k", " top_k", " "], ["temperature", " "], ["temperature", " top_p"], ["", " ", " ", ""];
    ExampleSplitFour(a, pa);
    ExampleSplitTwo(b, pb);
    ExampleSplitTwo(c, pc);
    ExampleSplitFour(d, pd);
    SplitChunks(a, b, c, d, ',');
    ExampleFused(pa, pb, pc, pd);
  }

  lemma SplitChunks(a: string, b: string, c: string, d: string, sep: char)
    ensures Split(a + b + c + d, sep) ==
            Fused(Fused(Fused(Split(a, sep), Split(b, sep)), Split(c, sep)), Split(d, sep))
  {
    SplitAppend(a, b, sep);
    SplitAppend(a + b, c, sep);
    SplitAppend(a + b + c, d, sep);
  }

  lemma ExampleFused(pa: seq<string>, pb: seq<string>, pc: seq<string>, pd: seq<string>)
    requires pa == ["model", " top_k", " top_k", " "] && pb == ["temperature", " "]
    requires pc == ["temperature", " top_p"] && pd == ["", " ", " ", ""]
    ensures Fused(Fused(Fused(pa, pb), pc), pd) ==
            ["model", " top_k", " top_k", " temperature", " temperature", " top_p", " ", " ", ""]
  {
    assert " " + "temperature" == " temperature";
    assert Fused(pa, pb) == ["model", " top_k", " top_k", " temperature", " "];
    assert Fused(Fused(pa, pb), pc) == ["model", " top_k", " top_k", " temperature", " temperature", " top_p"];
    assert " top_p" + "" == " top_p";
  }

  /** The chunks of the example directive with four pieces. */
  lemma ExampleSplitFour(chunk: string, pieces: seq<string>)
    requires (chunk == "model, top_k, top_k, " && pieces == ["model", " top_k", " top_k", " "])
          || (chunk == ", , ," && pieces == ["", " ", " ", ""])
    ensures Split(chunk, ',') == pieces
  {
    JoinFour(pieces, ',');
    assert chunk == pieces[0] + [','] + (pieces[1] + [','] + (pieces[2] + [','] + pieces[3]));
    assert forall p :: p in pieces ==> ',' !in p;
    SplitJoin(pieces, ',');
  }

  /** The chunks of the example directive with two pieces. */
  lemma ExampleSplitTwo(chunk: string, pieces: seq<string>)
    requires (chunk == "temperature, " && pieces == ["temperature", " "])
          || (chunk == "temperature, top_p" && pieces == ["temperature", " top_p"])
    ensures Split(chunk, ',') == pieces
  {
    assert Join(pieces, ',') == pieces[0] + [','] + pieces[1] by {
      assert pieces[1..] == [pieces[1]];
    }
    assert chunk == pieces[0] + [','] + pieces[1];
    assert forall p :: p in pieces ==> ',' !in p;
    SplitJoin(pieces, ',');
  }

  lemma ExampleCleanedTail(pieces: seq<string>)
    requires pieces == [" top_p", " ", " ", ""]
    ensures Cleaned(pieces) == ["top_p"]
  {
    TrimOneSpace(pieces[0], "top_p");
    TrimOneSpace(pieces[1], "");
    TrimOneSpace(pieces[2], "");
    assert Trim(pieces[3]) == [];
    assert Cleaned(pieces[3..]) == [];
    assert Cleaned(pieces[2..]) == [];
    assert Cleaned(pieces[1..]) == [];
  }
  lemma ExampleCleanedTemperatures(pieces: seq<string>)
    requires pieces == [" temperature", " temperature", " top_p", " ", " ", ""]
    ensures Cleaned(pieces) == ["temperature", "temperature", "top_p"]
  {
    ExampleCleanedTail(pieces[2..]);
    TrimOneSpace(pieces[0], "temperature");
    TrimOneSpace(pieces[1], "temperature");
    assert Cleaned(pieces[1..]) == ["temperature", "top_p"];
  }

  lemma ExampleCleanedNames(pieces: seq<string>)
    requires pieces == [" top_k", " top_k", " temperature", " temperature", " top_p", " ", " ", ""]
    ensures Cleaned(pieces) == ["top_k", "top_k", "temperature", "temperature", "top_p"]
  {
    ExampleCleanedTemperatures(pieces[2..]);
    TrimOneSpace(pieces[0], "top_k");
    TrimOneSpace(pieces[1], "top_k");
    assert Cleaned(pieces[1..]) == ["top_k", "temperature", "temperature", "top_p"];
  }

  lemma ExampleCleaned(pieces: seq<string>)
    requires pieces == ["model", " top_k", " top_k", " temperature", " temperature", " top_p", " ", " ", ""]
    ensures Cleaned(pieces) == ["top_k", "top_k", "temperature", "temperature", "top_p"]
  {
    ExampleCleanedNames(pieces[1..]);
    assert Trim(pieces[0]) == "model" by {
      assert pieces[0] == [] + "model" + [];
      TrimPadded([], "model", []);
    }
  }

  /** The worked example: `model`, the repeats and the empty pieces are dropped and
      the rest comes out in ascending order. */
  lemma StripParamsExample(raw: string)
    requires raw == "model, top_k, top_k, " + "temperature, " + "temperature, top_p" + ", , ,"
    ensures SanitizedStripParams(ModelFilters(raw)) == ["temperature", "top_k", "top_p"]
  {
    ExampleSplit(raw);
    var names := Cleaned(Split(raw, ','));
    ExampleCleaned(Split(raw, ','));
    var expected := ["temperature", "top_k", "top_p"];
    assert StrictlySorted(expected);
    var params := SanitizedStripParams(ModelFilters(raw));
    assert params == SortedSet(names);
    assert forall t :: t in params <==> t in expected;
    SortedUnique(params, expected);
  }
}
