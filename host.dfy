/** A host: at most one current infection (a virus of the arena) and an
 *  append-only immune history of the phenotypes it has cleared. */
module HostModel {
  import opened Wrappers
  import opened Numerics
  import opened Lineage
  import GeometricPhenotype
  import EnvironmentModel

  type Phenotype = GeometricPhenotype.Phenotype

  // ---------------------------------------------------------------------
  // Shedding counts summed over the arena.

  /** The number of (host, virus) shedding pairs recorded over all viruses. */
  function TotalShedding(nodes: seq<VirusNode>): int
  {
    if |nodes| == 0 then 0 else TotalShedding(nodes[..|nodes| - 1]) + nodes[|nodes| - 1].numHostsShedding
  }

  lemma TotalSheddingAppend(nodes: seq<VirusNode>, v: VirusNode)
    ensures TotalShedding(nodes + [v]) == TotalShedding(nodes) + v.numHostsShedding
  {
    assert (nodes + [v])[..|nodes|] == nodes;
  }

  lemma {:induction false} TotalSheddingUpdate(nodes: seq<VirusNode>, i: nat, v: VirusNode)
    requires i < |nodes|
    ensures TotalShedding(nodes[i := v]) == TotalShedding(nodes) - nodes[i].numHostsShedding + v.numHostsShedding
    decreases |nodes|
  {
    var last := |nodes| - 1;
    if i < last {
      assert nodes[i := v][..last] == nodes[..last][i := v];
      TotalSheddingUpdate(nodes[..last], i, v);
    } else {
      assert nodes[i := v][..last] == nodes[..last];
    }
  }

  // ---------------------------------------------------------------------
  // The checkpoint text format: "n" for nothing, otherwise entries joined
  // by ';', each entry a phenotype printed as "x,y".

  /** Cutting `s` at every `sep`: always one more piece than separators. */
  function SplitAll(s: string, sep: char): (pieces: seq<string>)
    ensures |pieces| >= 1
    ensures forall k :: 0 <= k < |pieces| ==> sep !in pieces[k]
    decreases |s|
  {
    if |s| == 0 then [""]
    else
      var rest := SplitAll(s[1..], sep);
      if s[0] == sep then [""] + rest else [[s[0]] + rest[0]] + rest[1..]
  }

  function DropTrailingEmpty(pieces: seq<string>): seq<string>
  {
    if |pieces| > 0 && pieces[|pieces| - 1] == "" then DropTrailingEmpty(pieces[..|pieces| - 1]) else pieces
  }

  /** Java's String.split for a one-character pattern: the whole string when
   *  the separator does not occur, otherwise the pieces without the trailing
   *  empty ones. */
  function Split(s: string, sep: char): seq<string>
  {
    if sep !in s then [s] else DropTrailingEmpty(SplitAll(s, sep))
  }

  /** Entries joined by `sep`. */
  function Join(entries: seq<string>, sep: char): string
    requires |entries| >= 1
  {
    if |entries| == 1 then entries[0] else entries[0] + [sep] + Join(entries[1..], sep)
  }

  lemma {:induction false} SplitAllJoin(entries: seq<string>, sep: char)
    requires |entries| >= 1
    requires forall k :: 0 <= k < |entries| ==> sep !in entries[k]
    ensures SplitAll(Join(entries, sep), sep) == entries
    decreases |entries|
  {
    if |entries| == 1 {
      SplitAllNoSep(entries[0], sep);
    } else {
      SplitAllJoin(entries[1..], sep);
      SplitAllPrefix(entries[0], sep, Join(entries[1..], sep));
    }
  }

  lemma {:induction false} SplitAllNoSep(s: string, sep: char)
    requires sep !in s
    ensures SplitAll(s, sep) == [s]
    decreases |s|
  {
    if |s| > 0 {
      SplitAllNoSep(s[1..], sep);
      assert [s[0]] + s[1..] == s;
    }
  }

  lemma {:induction false} SplitAllPrefix(e: string, sep: char, t: string)
    requires sep !in e
    ensures SplitAll(e + [sep] + t, sep) == [e] + SplitAll(t, sep)
    decreases |e|
  {
    if |e| == 0 {
      assert e + [sep] + t == [sep] + t;
      assert ([sep] + t)[1..] == t;
    } else {
      assert (e + [sep] + t)[1..] == e[1..] + [sep] + t;
      SplitAllPrefix(e[1..], sep, t);
      assert [e[0]] + e[1..] == e;
    }
  }

  lemma {:induction false} JoinContainsSep(entries: seq<string>, sep: char)
    requires |entries| >= 2
    ensures sep in Join(entries, sep)
  {
    assert Join(entries, sep)[|entries[0]|] == sep;
  }

  lemma {:induction false} JoinWithoutSep(entries: seq<string>, sep: char)
    requires |entries| >= 1
    requires forall k :: 0 <= k < |entries| ==> sep !in entries[k]
    requires sep !in Join(entries, sep)
    ensures |entries| == 1
  {
    if |entries| >= 2 {
      JoinContainsSep(entries, sep);
    }
  }

  /** Splitting joined entries gives the entries back, provided none is empty
   *  and none holds the separator. */
  lemma SplitJoin(entries: seq<string>, sep: char)
    requires |entries| >= 1
    requires forall k :: 0 <= k < |entries| ==> sep !in entries[k] && |entries[k]| > 0
    ensures Split(Join(entries, sep), sep) == entries
  {
    if sep in Join(entries, sep) {
      SplitAllJoin(entries, sep);
    } else {
      JoinWithoutSep(entries, sep);
    }
  }

  /** How a printed phenotype looks: "x,y" with four decimals, so it holds a
   *  comma and no semicolon (and therefore is never the text "n"). */
  ghost predicate Printable(show: Phenotype -> string)
  {
    forall p :: ',' in show(p) && ';' !in show(p)
  }

  /** `f` applied to each entry in turn: how printHistory prints and how the
   *  checkpoint constructor parses each history entry. */
  function MapAll<A, B>(f: A -> B, xs: seq<A>): (ys: seq<B>)
    ensures |ys| == |xs|
    ensures forall k :: 0 <= k < |xs| ==> ys[k] == f(xs[k])
  {
    if |xs| == 0 then [] else [f(xs[0])] + MapAll(f, xs[1..])
  }

  /** The text printHistory writes for a history. */
  function HistoryText(show: Phenotype -> string, history: seq<Phenotype>): string
  {
    if |history| == 0 then "n" else Join(MapAll(show, history), ';')
  }

  /** The entries the checkpoint constructor reads from a history text. */
  function HistoryEntries(sHist: string): seq<string>
  {
    if sHist == "n" then [] else Split(sHist, ';')
  }

  /** Reading back a printed history gives one entry per history element:
   *  exactly the printed phenotypes, in order. */
  lemma HistoryRoundTrip(show: Phenotype -> string, history: seq<Phenotype>)
    requires Printable(show)
    ensures HistoryEntries(HistoryText(show, history)) == MapAll(show, history)
    ensures |HistoryEntries(HistoryText(show, history))| == |history|
  {
    if |history| > 0 {
      var texts := MapAll(show, history);
      assert ',' in texts[0];
      if |history| == 1 {
        assert HistoryText(show, history) == texts[0];
        assert texts[0] != "n";
      } else {
        JoinContainsSep(texts, ';');
        assert ';' !in "n";
      }
      SplitJoin(texts, ';');
    }
  }

  class Host {
    var infection: Option<nat>
    var immuneHistory: array<Phenotype>

    function History(): seq<Phenotype>
      reads this, immuneHistory
    {
      immuneHistory[..]
    }

    /** A host as reset() leaves it: no infection and an empty history. */
    predicate Naive()
      reads this, immuneHistory
    {
      infection.None? && History() == []
    }

    /** Host(): a naive host; `immune` is the Bernoulli draw at the initial
     *  immunity probability that gives it the ur-immunity. */
    constructor (immune: bool, urImmunity: Phenotype)
      ensures infection == None && fresh(immuneHistory)
      ensures History() == if immune then [urImmunity] else []
    {
      infection := None;
      immuneHistory := new Phenotype[0];
      new;
      InitializeHistory(immune, urImmunity);
    }

    /** Host(v): an initially infected host. */
    constructor Infected(v: nat, immune: bool, urImmunity: Phenotype)
      ensures infection == Some(v) && fresh(immuneHistory)
      ensures History() == if immune then [urImmunity] else []
    {
      infection := Some(v);
      immuneHistory := new Phenotype[0];
      new;
      InitializeHistory(immune, urImmunity);
    }

    /** Host(d, sVirus, sHist): a host read back from a checkpoint. An
     *  infection other than "n" becomes a new child of the ur-virus in deme
     *  `d`; every ';'-separated history entry becomes one history element.
     *  `parse` stands for reading "x,y" into a phenotype. */
    constructor FromCheckpoint(arena: Arena, urVirus: nat, d: int, sVirus: string, sHist: string,
                               parse: string -> Phenotype, date: real)
      requires arena.Valid() && urVirus < |arena.nodes|
      modifies arena
      ensures arena.Valid()
      ensures sVirus == "n" ==> infection == None && arena.nodes == old(arena.nodes)
      ensures sVirus != "n" ==> infection == Some(|old(arena.nodes)|)
      ensures sVirus != "n" ==> arena.nodes == old(arena.nodes) + [NewNode(Some(urVirus), parse(sVirus), date, d)]
      ensures History() == MapAll(parse, HistoryEntries(sHist))
    {
      infection := None;
      immuneHistory := new Phenotype[0];
      new;
      if sVirus != "n" {
        var p := parse(sVirus);
        var v := arena.ReplicateWith(urVirus, d, p, date);
        infection := Some(v);
      }
      if sHist != "n" {
        var phenotypeList := Split(sHist, ';');
        var i := 0;
        while i < |phenotypeList|
          invariant 0 <= i <= |phenotypeList|
          invariant History() == MapAll(parse, phenotypeList[..i])
          invariant arena.Valid()
          invariant sVirus == "n" ==> infection == None && arena.nodes == old(arena.nodes)
          invariant sVirus != "n" ==> infection == Some(|old(arena.nodes)|)
          invariant sVirus != "n" ==> arena.nodes == old(arena.nodes) + [NewNode(Some(urVirus), parse(sVirus), date, d)]
        {
          AddToHistory(parse(phenotypeList[i]));
          assert phenotypeList[..i + 1] == phenotypeList[..i] + [phenotypeList[i]];
          i := i + 1;
        }
        assert phenotypeList[..i] == phenotypeList;
      }
    }

    /** initializeHistory: the ur-immunity when the draw succeeds. */
    method InitializeHistory(immune: bool, urImmunity: Phenotype)
      modifies this
      ensures infection == old(infection)
      ensures History() == old(History()) + (if immune then [urImmunity] else [])
      ensures immune ==> fresh(immuneHistory)
      ensures !immune ==> immuneHistory == old(immuneHistory)
    {
      if immune {
        AddToHistory(urImmunity);
      }
    }

    /** addToHistory: a new array one longer, the old entries copied over and
     *  `p` last. */
    method AddToHistory(p: Phenotype)
      modifies this
      ensures fresh(immuneHistory) && infection == old(infection)
      ensures History() == old(History()) + [p]
    {
      var history := immuneHistory;
      var newHistory := new Phenotype[history.Length + 1];
      var i := 0;
      while i < history.Length
        invariant 0 <= i <= history.Length
        invariant newHistory[..i] == history[..i]
        invariant infection == old(infection)
      {
        newHistory[i] := history[i];
        i := i + 1;
      }
      newHistory[history.Length] := p;
      assert newHistory[..] == history[..] + [p];
      immuneHistory := newHistory;
    }

    /** reset: uninfected, with an empty history. */
    method Reset()
      modifies this
      ensures infection == None && History() == [] && fresh(immuneHistory)
    {
      infection := None;
      immuneHistory := new Phenotype[0];
    }

    /** isInfected. */
    predicate IsInfected()
      reads this
    {
      infection.Some?
    }

    /** infect(pV, d, env): a fresh child of `pV` in deme `d` with `pV`'s
     *  phenotype becomes the infection; it is shed by exactly this host, so the
     *  environment is always told about it. */
    method Infect(pV: nat, d: int, environment: EnvironmentModel.Environment, arena: Arena, date: real)
      requires arena.Valid() && pV < |arena.nodes|
      modifies this, arena
      ensures arena.Valid() && infection == Some(|old(arena.nodes)|)
      ensures arena.nodes == old(arena.nodes) + [NewNode(Some(pV), old(arena.nodes)[pV].phenotype, date, d).(numHostsShedding := 1)]
      ensures immuneHistory == old(immuneHistory)
      ensures TotalShedding(arena.nodes) == TotalShedding(old(arena.nodes)) + 1
    {
      var nV := arena.Replicate(pV, d, date);
      infection := Some(nV);
      arena.HostInfected(nV);
      assert arena.nodes == old(arena.nodes) + [NewNode(Some(pV), old(arena.nodes)[pV].phenotype, date, d).(numHostsShedding := 1)];
      TotalSheddingAppend(old(arena.nodes), NewNode(Some(pV), old(arena.nodes)[pV].phenotype, date, d).(numHostsShedding := 1));
      if arena.nodes[nV].numHostsShedding == 1 {
        environment.Add(arena.nodes, nV);
      } else {
        assert false;
      }
    }

    /** clearInfection(env): the cleared phenotype joins the history, one host
     *  fewer sheds the virus, and the host is uninfected. */
    method ClearInfection(environment: EnvironmentModel.Environment, arena: Arena)
      requires arena.Valid() && infection.Some? && infection.value < |arena.nodes|
      modifies this, arena
      ensures arena.Valid() && infection == None
      ensures History() == old(History()) + [old(arena.nodes)[old(infection).value].phenotype]
      ensures fresh(immuneHistory)
      ensures var v := old(infection).value;
        arena.nodes == old(arena.nodes)[v := old(arena.nodes)[v].(numHostsShedding := old(arena.nodes)[v].numHostsShedding - 1)]
      ensures TotalShedding(arena.nodes) == TotalShedding(old(arena.nodes)) - 1
    {
      var v := infection.value;
      var p := arena.nodes[v].phenotype;
      AddToHistory(p);
      arena.HostRecovered(v);
      TotalSheddingUpdate(old(arena.nodes), v, arena.nodes[v]);
      infection := None;
    }

    /** mutate(env): the infection is replaced by a mutated child; the old
     *  virus loses this host as shedder and the child gains it, so the total
     *  shedding count is unchanged. */
    method Mutate(environment: EnvironmentModel.Environment, arena: Arena, m: MathLib,
                  mp: GeometricPhenotype.MutationParams, draw: GeometricPhenotype.MutationDraw, date: real)
      requires arena.Valid() && infection.Some? && infection.value < |arena.nodes|
      requires GeometricPhenotype.ValidMutation(mp)
      modifies this, arena
      ensures arena.Valid() && infection == Some(|old(arena.nodes)|)
      ensures immuneHistory == old(immuneHistory)
      ensures arena.nodes == WithMutant(old(arena.nodes), old(infection).value, m, mp, draw, date)
      ensures TotalShedding(arena.nodes) == TotalShedding(old(arena.nodes))
    {
      var v := infection.value;
      var mutV := arena.Mutate(v, m, mp, draw, date);
      ghost var grown := arena.nodes;
      arena.HostRecovered(v);
      ghost var dropped := arena.nodes;
      infection := Some(mutV);
      arena.HostInfected(mutV);
      TotalSheddingAppend(old(arena.nodes), grown[mutV]);
      TotalSheddingUpdate(grown, v, dropped[v]);
      TotalSheddingUpdate(dropped, mutV, arena.nodes[mutV]);
      assert dropped == old(arena.nodes)[v := dropped[v]] + [grown[mutV]];
    }

    /** printInfection: the infection's phenotype, or "n". */
    method PrintInfection(arena: Arena, show: Phenotype -> string) returns (text: string)
      requires infection.Some? ==> infection.value < |arena.nodes|
      ensures infection.None? ==> text == "n"
      ensures infection.Some? ==> text == show(arena.nodes[infection.value].phenotype)
      ensures Printable(show) ==> (text == "n" <==> infection.None?)
    {
      if infection.Some? {
        text := show(arena.nodes[infection.value].phenotype);
        assert Printable(show) ==> ',' in text;
      } else {
        text := "n";
      }
    }

    /** printHistory: "n" for an empty history, otherwise the entries joined
     *  by ';'. */
    method PrintHistory(show: Phenotype -> string) returns (text: string)
      ensures text == HistoryText(show, History())
      ensures Printable(show) ==> |HistoryEntries(text)| == |History()|
    {
      if immuneHistory.Length > 0 {
        text := show(immuneHistory[0]);
        var i := 1;
        while i < immuneHistory.Length
          invariant 1 <= i <= immuneHistory.Length
          invariant text == Join(MapAll(show, immuneHistory[..i]), ';')
        {
          JoinSnoc(MapAll(show, immuneHistory[..i]), show(immuneHistory[i]), ';');
          assert MapAll(show, immuneHistory[..i + 1]) == MapAll(show, immuneHistory[..i]) + [show(immuneHistory[i])];
          text := text + ";" + show(immuneHistory[i]);
          i := i + 1;
        }
        assert immuneHistory[..i] == History();
      } else {
        text := "n";
      }
      if Printable(show) {
        HistoryRoundTrip(show, History());
      }
    }
  }

  lemma {:induction false} JoinSnoc(entries: seq<string>, e: string, sep: char)
    requires |entries| >= 1
    ensures Join(entries + [e], sep) == Join(entries, sep) + [sep] + e
    decreases |entries|
  {
    if |entries| == 1 {
      assert (entries + [e])[1..] == [e];
    } else {
      assert (entries + [e])[1..] == entries[1..] + [e];
      JoinSnoc(entries[1..], e, sep);
    }
  }
}
