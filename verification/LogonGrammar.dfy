/** The grammar of the initial logon response, matched in one greedy pass. */
module LogonGrammar {
  import opened Bytes
  import opened FieldChain

  /** A field of one tag, with an exact length or a length from one to a maximum. */
  datatype Coordinate = Coordinate(tag: Tag, exact: Option<nat>, maximum: nat, optional: bool)

  const MAX_TEXT := 255
  const RESPONSE_START: Tag := 0x0500
  const EMBEDDED: Tag := 0x0126

  function Exact(tag: Tag, n: nat, optional: bool): Coordinate { Coordinate(tag, Some(n), 0, optional) }
  function Bounded(tag: Tag, optional: bool): Coordinate { Coordinate(tag, None, MAX_TEXT, optional) }

  function PreambleGrammar(): seq<Coordinate> {
    [ Exact(0x0103, 4, false), Exact(0x0106, 11, false), Exact(0x0161, 1, true), Exact(0x0016, 8, false),
      Exact(0x0450, 6, true), Exact(0x0451, 20, true), Exact(0x0452, 4, true), Bounded(0x0453, true),
      Bounded(0x0007, false), Exact(0x0020, 92, true), Exact(0x0021, 20, true), Bounded(0x0018, false),
      Bounded(0x0008, false), Exact(0x0011, 2, false), Exact(0x0013, 8, false), Exact(0x0012, 8, false),
      Bounded(0x0006, true), Bounded(0x0130, false), Exact(0x0150, 24, false), Exact(0x0151, 6, false),
      Exact(0x0152, 2, false) ]
  }

  function ResponseGrammar(): seq<Coordinate> {
    [ Exact(0x0500, 0, false), Exact(0x0503, 0, false), Exact(0x0514, 16, false), Exact(0x0420, 4, false),
      Exact(0x0512, 0, false), Bounded(0x0130, false), Exact(0x0667, 8, false), Exact(0x0126, 4, true),
      Exact(0xffff, 0, false) ]
  }

  function RichGrammar(): seq<Coordinate> { PreambleGrammar() + ResponseGrammar() }

  predicate Matches(f: Field, c: Coordinate) {
    f.tag == c.tag && (if c.exact.Some? then |f.value| == c.exact.value else 1 <= |f.value| <= c.maximum)
  }

  // ---- what the grammar means ----

  /** The coordinates kept by a choice, in order. */
  function Chosen(g: seq<Coordinate>, keep: seq<bool>): seq<Coordinate>
    requires |keep| == |g|
  {
    if g == [] then [] else (if keep[0] then [g[0]] else []) + Chosen(g[1..], keep[1..])
  }

  /** The choice drops optional coordinates only, and the fields match what it keeps, one for one. */
  predicate Reads(fields: seq<Field>, g: seq<Coordinate>, keep: seq<bool>) {
    && |keep| == |g| && (forall k :: 0 <= k < |g| ==> keep[k] || g[k].optional)
    && |Chosen(g, keep)| == |fields|
    && forall k :: 0 <= k < |fields| ==> Matches(fields[k], Chosen(g, keep)[k])
  }

  ghost predicate Readable(fields: seq<Field>, g: seq<Coordinate>) { exists keep :: Reads(fields, g, keep) }

  // ---- the greedy pass ----

  predicate Greedy(fields: seq<Field>, g: seq<Coordinate>)
    decreases |g|
  {
    if g == [] then fields == []
    else if fields != [] && Matches(fields[0], g[0]) then Greedy(fields[1..], g[1..])
    else g[0].optional && Greedy(fields, g[1..])
  }

  /** No tag of an optional coordinate comes again later. */
  predicate NoReappearance(g: seq<Coordinate>) {
    forall i, j :: 0 <= i < j < |g| && g[i].optional ==> g[i].tag != g[j].tag
  }

  lemma {:induction false} GreedyReads(fields: seq<Field>, g: seq<Coordinate>) returns (keep: seq<bool>)
    requires Greedy(fields, g)
    ensures Reads(fields, g, keep)
    decreases |g|
  {
    if g == [] {
      keep := [];
    } else if fields != [] && Matches(fields[0], g[0]) {
      var rest := GreedyReads(fields[1..], g[1..]);
      keep := [true] + rest;
      assert keep[1..] == rest;
      assert Chosen(g, keep) == [g[0]] + Chosen(g[1..], rest);
      forall k | 0 <= k < |fields| ensures Matches(fields[k], Chosen(g, keep)[k]) {
        if k > 0 { assert Chosen(g, keep)[k] == Chosen(g[1..], rest)[k - 1]; }
      }
    } else {
      var rest := GreedyReads(fields, g[1..]);
      keep := [false] + rest;
      assert keep[1..] == rest;
      assert Chosen(g, keep) == Chosen(g[1..], rest);
    }
  }

  /** Without a reappearing optional tag, a first field that matches can only be read by the first coordinate. */
  lemma {:induction false} ReadsGreedy(fields: seq<Field>, g: seq<Coordinate>, keep: seq<bool>)
    requires Reads(fields, g, keep) && NoReappearance(g)
    ensures Greedy(fields, g)
    decreases |g|
  {
    if g != [] {
      var rest := keep[1..];
      assert forall i, j :: 0 <= i < j < |g[1..]| ==> g[1..][i] == g[i + 1] && g[1..][j] == g[j + 1];
      if keep[0] {
        assert Chosen(g, keep) == [g[0]] + Chosen(g[1..], rest);
        assert Matches(fields[0], Chosen(g, keep)[0]);
        forall k | 0 <= k < |fields[1..]| ensures Matches(fields[1..][k], Chosen(g[1..], rest)[k]) {
          assert Matches(fields[k + 1], Chosen(g, keep)[k + 1]);
        }
        ReadsGreedy(fields[1..], g[1..], rest);
      } else {
        assert Chosen(g, keep) == Chosen(g[1..], rest);
        ReadsGreedy(fields, g[1..], rest);
        if fields != [] {
          assert Matches(fields[0], Chosen(g[1..], rest)[0]);
          ChosenLater(g, rest, 0);
        }
      }
    }
  }

  /** A chosen coordinate stands somewhere behind the first. */
  lemma {:induction false} ChosenLater(g: seq<Coordinate>, rest: seq<bool>, k: nat)
    requires g != [] && |rest| == |g| - 1 && k < |Chosen(g[1..], rest)|
    requires g[0].optional && NoReappearance(g)
    ensures Chosen(g[1..], rest)[k].tag != g[0].tag
  {
    var j := ChosenFrom(g[1..], rest, k);
    assert g[1..][j] == g[j + 1];
  }

  lemma {:induction false} ChosenFrom(g: seq<Coordinate>, keep: seq<bool>, k: nat) returns (j: nat)
    requires |keep| == |g| && k < |Chosen(g, keep)|
    ensures j < |g| && Chosen(g, keep)[k] == g[j]
    decreases |g|
  {
    if keep[0] && k == 0 {
      j := 0;
    } else {
      var below := ChosenFrom(g[1..], keep[1..], if keep[0] then k - 1 else k);
      j := below + 1;
    }
  }

  /** Greedy matching is complete: it accepts exactly the field lists that some choice of optional coordinates reads. */
  lemma GreedyIsComplete(fields: seq<Field>, g: seq<Coordinate>)
    requires NoReappearance(g)
    ensures Greedy(fields, g) <==> Readable(fields, g)
  {
    if Greedy(fields, g) { var keep := GreedyReads(fields, g); }
    if Readable(fields, g) {
      var keep :| Reads(fields, g, keep);
      ReadsGreedy(fields, g, keep);
    }
  }

  lemma RichGrammarHasNoReappearance()
    ensures NoReappearance(RichGrammar())
  {
    var g := RichGrammar();
    forall i, j | 0 <= i < j < |g| && g[i].optional ensures g[i].tag != g[j].tag {
      assert i == 2 || 4 <= i <= 7 || 9 <= i <= 10 || i == 16 || i == 28;
    }
  }

  /** A grammar where the condition fails and greed goes wrong: the optional coordinate eats the only field. */
  lemma GreedCanFail()
    ensures var g := [Exact(1, 0, true), Exact(1, 0, false)];
            Readable([Field(1, [])], g) && !Greedy([Field(1, [])], g)
  {
    var g, fields := [Exact(1, 0, true), Exact(1, 0, false)], [Field(1, [])];
    assert Chosen(g[1..], [true]) == [g[1]] by { assert Chosen(g[1..][1..], [true][1..]) == []; }
    assert [false, true][1..] == [true];
    assert Chosen(g, [false, true]) == [g[1]];
    assert Reads(fields, g, [false, true]);
    assert fields[1..] == [] && !Greedy([], g[1..]);
  }

  // ---- the matcher ----

  datatype Match = Match(preambleFieldCount: nat, embedded: bool)

  method MatchInitialRichGrammar(fields: seq<Field>) returns (r: Option<Match>)
    ensures r.Some? <==> Readable(fields, RichGrammar())
    ensures r.Some? ==> r.value.preambleFieldCount < |fields| && fields[r.value.preambleFieldCount].tag == RESPONSE_START
    ensures r.Some? ==> (r.value.embedded <==> exists k :: 0 <= k < |fields| && fields[k].tag == EMBEDDED)
  {
    hide RichGrammar, Greedy;
    RichGrammarHasNoReappearance();
    GreedyIsComplete(fields, RichGrammar());
    RichGrammarFacts();
    var g := RichGrammar();
    var fieldIndex: nat := 0;
    var preambleFieldCount: int := -1;
    var embedded := false;
    assert fields[0..] == fields && g[0..] == g;
    for k := 0 to |g|
      invariant fieldIndex <= |fields|
      invariant Greedy(fields[fieldIndex..], g[k..]) == Greedy(fields, g)
      invariant -1 <= preambleFieldCount < fieldIndex
      invariant preambleFieldCount >= 0 ==> fields[preambleFieldCount].tag == RESPONSE_START
      invariant k > 21 ==> preambleFieldCount >= 0
      invariant embedded <==> exists j :: 0 <= j < fieldIndex && fields[j].tag == EMBEDDED
    {
      GreedyStep(fields, fieldIndex, g, k);
      if fieldIndex < |fields| && Matches(fields[fieldIndex], g[k]) {
        if g[k].tag == RESPONSE_START {
          preambleFieldCount := fieldIndex;
        }
        if g[k].tag == EMBEDDED {
          embedded := true;
        }
        fieldIndex := fieldIndex + 1;
        continue;
      }
      if g[k].optional {
        continue;
      }
      return None;
    }
    NothingLeft(fields, fieldIndex);
    assert g[|g|..] == [];
    if fieldIndex != |fields| || preambleFieldCount < 0 {
      return None;
    }
    r := Some(Match(preambleFieldCount, embedded));
  }

  lemma RichGrammarFacts()
    ensures |RichGrammar()| == 30 && RichGrammar()[21] == Exact(RESPONSE_START, 0, false)
  {
  }

  lemma GreedyStep(fields: seq<Field>, i: nat, g: seq<Coordinate>, k: nat)
    requires i <= |fields| && k < |g|
    ensures Greedy(fields[i..], g[k..]) ==
            if i < |fields| && Matches(fields[i], g[k]) then Greedy(fields[i + 1..], g[k + 1..])
            else g[k].optional && Greedy(fields[i..], g[k + 1..])
  {
    assert g[k..][1..] == g[k + 1..];
    if i < |fields| { assert fields[i..][1..] == fields[i + 1..]; }
  }

  lemma NothingLeft(fields: seq<Field>, i: nat)
    requires i <= |fields|
    ensures Greedy(fields[i..], []) <==> i == |fields|
  {
  }
}
