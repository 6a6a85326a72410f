/** Which FourCC each class is served, and which documented claims are quarantined. */
module FourccQuarantine {
  import opened Basics

  /** A row of the registrar scan; `canonical` is the ledger class it names, if any. */
  datatype Row = Row(fourcc: string, canonical: Option<string>)

  /** The parsed corpus: ledger classes, their documents' claims, registrar rows and the shipped object tags. */
  datatype Corpus = Corpus(ledger: seq<string>, explicit: map<string, Option<string>>, rows: seq<Row>, tags: map<string, string>)

  type Fold = string -> string

  /** Ledger classes differ when folded, and each has a document. */
  ghost predicate WellFormed(fold: Fold, c: Corpus) {
    && (forall i, j :: 0 <= i < j < |c.ledger| ==> fold(c.ledger[i]) != fold(c.ledger[j]))
    && (forall n :: n in c.ledger ==> n in c.explicit)
  }

  predicate IsLevelId(f: string) { |f| == 4 && f[..3] == "LEV" && '0' <= f[3] <= '9' }

  function Reversed(s: string): string {
    seq(|s|, i requires 0 <= i < |s| => s[|s| - 1 - i])
  }

  predicate Names(fold: Fold, r: Row, key: string) { r.canonical.Some? && fold(r.canonical.value) == key }

  /** The folded FourCCs that rows commit to a class. */
  function Committed(fold: Fold, rows: seq<Row>, key: string): set<string> {
    set r | r in rows && Names(fold, r, key) :: fold(r.fourcc)
  }

  /** The classes that rows commit a FourCC to. */
  function Owners(fold: Fold, rows: seq<Row>, folded: string): set<string> {
    set r | r in rows && r.canonical.Some? && fold(r.fourcc) == folded :: fold(r.canonical.value)
  }

  /** Level class IDs in both byte orders. */
  function LevelIds(fold: Fold, rows: seq<Row>): set<string> {
    (set r | r in rows && IsLevelId(r.fourcc) :: fold(r.fourcc)) +
    (set r | r in rows && IsLevelId(r.fourcc) :: fold(Reversed(r.fourcc)))
  }

  /** The spelling that the last row for a class and FourCC gives. */
  function Spelling(fold: Fold, rows: seq<Row>, key: string, folded: string): Option<string> {
    if rows == [] then None
    else
      var last := rows[|rows| - 1];
      if Names(fold, last, key) && fold(last.fourcc) == folded then Some(last.fourcc)
      else Spelling(fold, rows[..|rows| - 1], key, folded)
  }

  /** _fourcc_is_contradicted */
  predicate Contradicted(fold: Fold, key: string, explicit: string, committed: set<string>, owners: set<string>,
                         levels: set<string>, tags: map<string, string>) {
    var folded := fold(explicit);
    if folded in committed then false
    else if folded in levels then true
    else if owners - {key} != {} then true
    else folded in tags && tags[folded] != key && key in tags.Values
  }

  predicate IsQuarantined(fold: Fold, c: Corpus, n: string)
    requires n in c.explicit
  {
    c.explicit[n].Some? &&
    var e := c.explicit[n].value;
    Contradicted(fold, fold(n), e, Committed(fold, c.rows, fold(n)), Owners(fold, c.rows, fold(e)), LevelIds(fold, c.rows), c.tags)
  }

  /** Whether a class is served its document's own claim. */
  predicate FromDocument(fold: Fold, c: Corpus, n: string)
    requires n in c.explicit
  {
    c.explicit[n].Some? && !IsQuarantined(fold, c, n)
  }

  /** The FourCC a class is served. */
  ghost function Served(fold: Fold, c: Corpus, n: string): Option<string>
    requires n in c.explicit
  {
    var key := fold(n);
    if FromDocument(fold, c, n) then c.explicit[n]
    else if |Committed(fold, c.rows, key)| == 1 then Spelling(fold, c.rows, key, Only(Committed(fold, c.rows, key)))
    else None
  }

  /** The element of a singleton. */
  ghost function Only(s: set<string>): (f: string)
    requires |s| == 1
    ensures s == {f}
  {
    var f :| f in s;
    assert s == {f} + (s - {f});
    f
  }

  /** _validate_explicit_fourccs: every claim of a class with rows of its own is one of them. */
  ghost predicate Accepted(fold: Fold, c: Corpus)
    requires WellFormed(fold, c)
  {
    forall n :: n in c.ledger && c.explicit[n].Some? && Committed(fold, c.rows, fold(n)) != {} ==>
      fold(c.explicit[n].value) in Committed(fold, c.rows, fold(n))
  }

  function Get(m: map<string, set<string>>, k: string): set<string> { if k in m then m[k] else {} }

  // One more row

  lemma LastRow(rows: seq<Row>, k: nat)
    requires k < |rows|
    ensures forall r :: r in rows[..k + 1] <==> r in rows[..k] || r == rows[k]
  {
    assert rows[..k + 1] == rows[..k] + [rows[k]];
  }

  lemma CommittedMore(fold: Fold, rows: seq<Row>, k: nat, key: string)
    requires k < |rows|
    ensures Committed(fold, rows[..k + 1], key) ==
              Committed(fold, rows[..k], key) + if Names(fold, rows[k], key) then {fold(rows[k].fourcc)} else {}
  {
    LastRow(rows, k);
    assert rows[k] in rows[..k + 1];
  }

  lemma OwnersMore(fold: Fold, rows: seq<Row>, k: nat, folded: string)
    requires k < |rows|
    ensures Owners(fold, rows[..k + 1], folded) ==
              Owners(fold, rows[..k], folded) +
              if rows[k].canonical.Some? && fold(rows[k].fourcc) == folded then {fold(rows[k].canonical.value)} else {}
  {
    LastRow(rows, k);
    assert rows[k] in rows[..k + 1];
  }

  lemma LevelIdsMore(fold: Fold, rows: seq<Row>, k: nat)
    requires k < |rows|
    ensures LevelIds(fold, rows[..k + 1]) ==
              LevelIds(fold, rows[..k]) +
              if IsLevelId(rows[k].fourcc) then {fold(rows[k].fourcc), fold(Reversed(rows[k].fourcc))} else {}
  {
    hide IsLevelId, Reversed;
    LastRow(rows, k);
    assert rows[k] in rows[..k + 1];
  }

  lemma SpellingMore(fold: Fold, rows: seq<Row>, k: nat, key: string, folded: string)
    requires k < |rows|
    ensures Spelling(fold, rows[..k + 1], key, folded) ==
              if Names(fold, rows[k], key) && fold(rows[k].fourcc) == folded then Some(rows[k].fourcc)
              else Spelling(fold, rows[..k], key, folded)
  {
    assert rows[..k + 1][..k] == rows[..k];
  }

  class SymbolIndex {
    var quarantined: map<string, string>

    constructor ()
      ensures quarantined == map[]
    {
      quarantined := map[];
    }

    method ValidateExplicitFourccs(fold: Fold, c: Corpus) returns (ok: bool)
      requires WellFormed(fold, c)
      ensures ok <==> Accepted(fold, c)
    {
      hide Committed, Names;
      var byClass: map<string, set<string>> := map[];
      NoRows(fold);
      assert c.rows[..0] == [];
      for k := 0 to |c.rows|
        invariant forall key :: Get(byClass, key) == Committed(fold, c.rows[..k], key)
      {
        var row := c.rows[k];
        RowMore(fold, c.rows, k);
        if row.canonical.Some? {
          var key := fold(row.canonical.value);
          byClass := byClass[key := Get(byClass, key) + {fold(row.fourcc)}];
        }
      }
      assert c.rows[..|c.rows|] == c.rows;
      for k := 0 to |c.ledger|
        invariant forall i :: 0 <= i < k && c.explicit[c.ledger[i]].Some? && Committed(fold, c.rows, fold(c.ledger[i])) != {} ==>
                    fold(c.explicit[c.ledger[i]].value) in Committed(fold, c.rows, fold(c.ledger[i]))
      {
        var n := c.ledger[k];
        var explicit, committed := c.explicit[n], Get(byClass, fold(n));
        if explicit.Some? && committed != {} && fold(explicit.value) !in committed { return false; }
      }
      ok := true;
    }

    /** Fills the tables from the rows. */
    method ReadRows(fold: Fold, rows: seq<Row>)
      returns (byClass: map<string, set<string>>, spelling: map<(string, string), string>, owners: map<string, set<string>>,
               levels: set<string>)
      ensures forall key :: Get(byClass, key) == Committed(fold, rows, key)
      ensures forall folded :: Get(owners, folded) == Owners(fold, rows, folded)
      ensures levels == LevelIds(fold, rows)
      ensures forall key, folded :: Spelling(fold, rows, key, folded) ==
                                      if (key, folded) in spelling then Some(spelling[(key, folded)]) else None
    {
      hide Committed, Names, Owners, LevelIds, Spelling, IsLevelId, Reversed;
      byClass, spelling, owners, levels := map[], map[], map[], {};
      NoRows(fold);
      assert rows[..0] == [];
      for k := 0 to |rows|
        invariant forall key :: Get(byClass, key) == Committed(fold, rows[..k], key)
        invariant forall folded :: Get(owners, folded) == Owners(fold, rows[..k], folded)
        invariant levels == LevelIds(fold, rows[..k])
        invariant forall key, folded :: Spelling(fold, rows[..k], key, folded) ==
                                          if (key, folded) in spelling then Some(spelling[(key, folded)]) else None
      {
        var row := rows[k];
        var folded := fold(row.fourcc);
        RowMore(fold, rows, k);
        if IsLevelId(row.fourcc) {
          levels := levels + {folded} + {fold(Reversed(row.fourcc))};
        }
        if row.canonical.None? { continue; }
        var key := fold(row.canonical.value);
        byClass := byClass[key := Get(byClass, key) + {folded}];
        spelling := spelling[(key, folded) := row.fourcc];
        owners := owners[folded := Get(owners, folded) + {key}];
      }
      assert rows[..|rows|] == rows;
    }

    /** The FourCC of each ledger class; contradicted claims are recorded and not served. */
    method ClassFourccs(fold: Fold, c: Corpus) returns (selected: map<string, Option<string>>)
      requires WellFormed(fold, c)
      modifies this
      ensures forall n :: n in c.ledger ==> fold(n) in selected && selected[fold(n)] == Served(fold, c, n)
      ensures forall key :: key in selected ==> exists n :: n in c.ledger && fold(n) == key
      ensures forall n :: n in quarantined <==> n in old(quarantined) || (n in c.ledger && IsQuarantined(fold, c, n))
      ensures forall n :: n in c.ledger && IsQuarantined(fold, c, n) ==> Some(quarantined[n]) == c.explicit[n]
    {
      hide Committed, Owners, LevelIds, Spelling, Contradicted, IsQuarantined, Served, WellFormed, Selects, Records;
      var byClass, spelling, owners, levels := ReadRows(fold, c.rows);
      ghost var before := quarantined;
      selected := map[];
      NothingYet(fold, c, before);
      for k := 0 to |c.ledger|
        invariant Selects(fold, c, k, selected) && Records(fold, c, before, k, quarantined)
      {
        var n := c.ledger[k];
        InLedger(fold, c, k);
        var key, explicit := fold(n), c.explicit[n];
        ghost var recorded := quarantined;
        if explicit.Some? {
          TablesContradict(fold, c, n, Get(byClass, key), Get(owners, fold(explicit.value)), levels);
        }
        ExplicitOnly(fold, c, n);
        if explicit.Some?
           && Contradicted(fold, key, explicit.value, Get(byClass, key), Get(owners, fold(explicit.value)), levels, c.tags) {
          quarantined := quarantined[n := explicit.value];
          explicit := None;
        }
        RecordsMore(fold, c, before, k, recorded, quarantined);
        ServedWhen(fold, c, n);
        var fourcc: Option<string> := None;
        if explicit.Some? {
          fourcc := explicit;
        } else if |Get(byClass, key)| == 1 {
          var folded :| folded in Get(byClass, key);
          assert folded == Only(Committed(fold, c.rows, key));
          SpellingExists(fold, c.rows, key, folded);
          fourcc := Some(spelling[(key, folded)]);
        }
        SelectsMore(fold, c, k, selected, fourcc);
        selected := selected[key := fourcc];
      }
      AllDone(fold, c, before, selected, quarantined);
    }
  }

  ghost predicate Selects(fold: Fold, c: Corpus, k: nat, selected: map<string, Option<string>>)
    requires WellFormed(fold, c) && k <= |c.ledger|
  {
    && (forall i :: 0 <= i < k ==> fold(c.ledger[i]) in selected && selected[fold(c.ledger[i])] == Served(fold, c, c.ledger[i]))
    && (forall key :: key in selected ==> exists i :: 0 <= i < k && fold(c.ledger[i]) == key)
  }

  ghost predicate Records(fold: Fold, c: Corpus, before: map<string, string>, k: nat, quarantined: map<string, string>)
    requires WellFormed(fold, c) && k <= |c.ledger|
  {
    && (forall n :: n in quarantined <==> n in before || (n in c.ledger[..k] && IsQuarantined(fold, c, n)))
    && (forall n :: n in c.ledger[..k] && IsQuarantined(fold, c, n) ==> Some(quarantined[n]) == c.explicit[n])
  }

  lemma InLedger(fold: Fold, c: Corpus, k: nat)
    requires WellFormed(fold, c) && k < |c.ledger|
    ensures c.ledger[k] in c.explicit
  {
  }

  lemma NothingYet(fold: Fold, c: Corpus, before: map<string, string>)
    requires WellFormed(fold, c)
    ensures Selects(fold, c, 0, map[]) && Records(fold, c, before, 0, before)
  {
    hide IsQuarantined, Served;
  }

  lemma SelectsMore(fold: Fold, c: Corpus, k: nat, selected: map<string, Option<string>>, fourcc: Option<string>)
    requires WellFormed(fold, c) && k < |c.ledger| && Selects(fold, c, k, selected) && fourcc == Served(fold, c, c.ledger[k])
    ensures Selects(fold, c, k + 1, selected[fold(c.ledger[k]) := fourcc])
  {
    hide Served;
    var more := selected[fold(c.ledger[k]) := fourcc];
    forall key | key in more ensures exists i :: 0 <= i < k + 1 && fold(c.ledger[i]) == key {
      if key == fold(c.ledger[k]) {
      } else {
        var i :| 0 <= i < k && fold(c.ledger[i]) == key;
      }
    }
  }

  lemma RecordsMore(fold: Fold, c: Corpus, before: map<string, string>, k: nat, q: map<string, string>, more: map<string, string>)
    requires WellFormed(fold, c) && k < |c.ledger| && Records(fold, c, before, k, q)
    requires more == if IsQuarantined(fold, c, c.ledger[k]) then q[c.ledger[k] := c.explicit[c.ledger[k]].value] else q
    ensures Records(fold, c, before, k + 1, more)
  {
    assert c.ledger[..k + 1] == c.ledger[..k] + [c.ledger[k]];
    hide Contradicted, Committed, Owners, LevelIds;
  }

  lemma AllDone(fold: Fold, c: Corpus, before: map<string, string>, selected: map<string, Option<string>>, q: map<string, string>)
    requires WellFormed(fold, c) && Selects(fold, c, |c.ledger|, selected) && Records(fold, c, before, |c.ledger|, q)
    ensures forall n :: n in c.ledger ==> fold(n) in selected && selected[fold(n)] == Served(fold, c, n)
    ensures forall key :: key in selected ==> exists n :: n in c.ledger && fold(n) == key
    ensures forall n :: n in q <==> n in before || (n in c.ledger && IsQuarantined(fold, c, n))
    ensures forall n :: n in c.ledger && IsQuarantined(fold, c, n) ==> Some(q[n]) == c.explicit[n]
  {
    hide IsQuarantined, Served;
    assert c.ledger[..|c.ledger|] == c.ledger;
    forall key | key in selected ensures exists n :: n in c.ledger && fold(n) == key {
      var i :| 0 <= i < |c.ledger| && fold(c.ledger[i]) == key;
      assert c.ledger[i] in c.ledger;
    }
  }

  /** The cases of Served. */
  lemma ServedWhen(fold: Fold, c: Corpus, n: string)
    requires n in c.explicit
    ensures var committed := Committed(fold, c.rows, fold(n));
            Served(fold, c, n) ==
              if FromDocument(fold, c, n) then c.explicit[n]
              else if |committed| == 1 then Spelling(fold, c.rows, fold(n), Only(committed))
              else None
  {
    hide IsQuarantined, Committed, Spelling;
  }

  lemma ExplicitOnly(fold: Fold, c: Corpus, n: string)
    requires n in c.explicit
    ensures c.explicit[n].None? ==> !IsQuarantined(fold, c, n)
  {
  }

  /** A committed FourCC has a spelling. */
  lemma {:induction false} SpellingExists(fold: Fold, rows: seq<Row>, key: string, folded: string)
    requires folded in Committed(fold, rows, key)
    ensures Spelling(fold, rows, key, folded).Some? && fold(Spelling(fold, rows, key, folded).value) == folded
  {
    var r :| r in rows && Names(fold, r, key) && fold(r.fourcc) == folded;
    var before, last := rows[..|rows| - 1], rows[|rows| - 1];
    assert rows == before + [last];
    if !(Names(fold, last, key) && fold(last.fourcc) == folded) {
      assert r in before;
      SpellingExists(fold, before, key, folded);
    }
  }

  /** Whether a class's documented FourCC is contradicted, read from the tables. */
  lemma TablesContradict(fold: Fold, c: Corpus, n: string, committed: set<string>, owners: set<string>, levels: set<string>)
    requires n in c.explicit && c.explicit[n].Some?
    requires committed == Committed(fold, c.rows, fold(n)) && owners == Owners(fold, c.rows, fold(c.explicit[n].value))
    requires levels == LevelIds(fold, c.rows)
    ensures Contradicted(fold, fold(n), c.explicit[n].value, committed, owners, levels, c.tags) <==> IsQuarantined(fold, c, n)
  {
  }

  lemma NoRows(fold: Fold)
    ensures LevelIds(fold, []) == {}
    ensures forall key :: Committed(fold, [], key) == {} && Owners(fold, [], key) == {}
    ensures forall key, folded :: Spelling(fold, [], key, folded) == None
  {
  }

  /** What one more row adds to each table. */
  lemma RowMore(fold: Fold, rows: seq<Row>, k: nat)
    requires k < |rows|
    ensures var r, more, before := rows[k], rows[..k + 1], rows[..k];
            var f := fold(r.fourcc);
            && (forall key :: Committed(fold, more, key) ==
                  Committed(fold, before, key) + if r.canonical.Some? && fold(r.canonical.value) == key then {f} else {})
            && (forall folded :: Owners(fold, more, folded) ==
                  Owners(fold, before, folded) + if r.canonical.Some? && f == folded then {fold(r.canonical.value)} else {})
            && LevelIds(fold, more) == LevelIds(fold, before) + (if IsLevelId(r.fourcc) then {f, fold(Reversed(r.fourcc))} else {})
            && (forall key, folded :: Spelling(fold, more, key, folded) ==
                  if r.canonical.Some? && fold(r.canonical.value) == key && f == folded then Some(r.fourcc)
                  else Spelling(fold, before, key, folded))
  {
    hide Committed, Owners, LevelIds, IsLevelId, Reversed;
    forall key ensures Committed(fold, rows[..k + 1], key) ==
                         Committed(fold, rows[..k], key) + if Names(fold, rows[k], key) then {fold(rows[k].fourcc)} else {}
    {
      CommittedMore(fold, rows, k, key);
    }
    forall folded ensures Owners(fold, rows[..k + 1], folded) ==
                            Owners(fold, rows[..k], folded) +
                            if rows[k].canonical.Some? && fold(rows[k].fourcc) == folded then {fold(rows[k].canonical.value)} else {}
    {
      OwnersMore(fold, rows, k, folded);
    }
    LevelIdsMore(fold, rows, k);
    forall key, folded ensures Spelling(fold, rows[..k + 1], key, folded) ==
                                 if Names(fold, rows[k], key) && fold(rows[k].fourcc) == folded then Some(rows[k].fourcc)
                                 else Spelling(fold, rows[..k], key, folded)
    {
      SpellingMore(fold, rows, k, key, folded);
    }
  }

  // What the quarantine means

  /** A row says that `folded` is the FourCC of the class `key`. */
  ghost predicate SaysSo(fold: Fold, rows: seq<Row>, key: string, folded: string) {
    exists r :: r in rows && r.canonical.Some? && fold(r.canonical.value) == key && fold(r.fourcc) == folded
  }

  /** "LEV" and a digit, forwards or backwards. */
  predicate IsLevelOfRow(fold: Fold, f: string, folded: string) {
    && |f| == 4 && f[0] == 'L' && f[1] == 'E' && f[2] == 'V' && '0' <= f[3] <= '9'
    && (fold(f) == folded || fold([f[3], 'V', 'E', 'L']) == folded)
  }

  /** Some row is a level, and its ID, forwards or backwards, is `folded`. */
  ghost predicate IsLevelOf(fold: Fold, rows: seq<Row>, folded: string) {
    exists r :: r in rows && IsLevelOfRow(fold, r.fourcc, folded)
  }

  /**
   A claim is quarantined exactly when no row of the class confirms it and it is a level's ID, or a row gives
   it to another class, or the shipped tags give it to another name while some tag names this class.
  */
  lemma QuarantinedExactly(fold: Fold, c: Corpus, n: string)
    requires n in c.explicit && c.explicit[n].Some?
    ensures var key, claim := fold(n), fold(c.explicit[n].value);
            IsQuarantined(fold, c, n) <==>
              && !SaysSo(fold, c.rows, key, claim)
              && (|| IsLevelOf(fold, c.rows, claim)
                  || (exists other :: other != key && SaysSo(fold, c.rows, other, claim))
                  || (claim in c.tags && c.tags[claim] != key && exists f :: f in c.tags && c.tags[f] == key))
  {
    hide IsLevelId, Reversed;
    var key, claim := fold(n), fold(c.explicit[n].value);
    CommittedSays(fold, c.rows, key, claim);
    LevelIdsAre(fold, c.rows, claim);
    var owners := Owners(fold, c.rows, claim);
    forall other ensures other in owners <==> SaysSo(fold, c.rows, other, claim) { OwnersSay(fold, c.rows, other, claim); }
    if owners - {key} != {} {
      var other :| other in owners - {key};
    } else {
      forall other | other in owners ensures other == key { assert other !in owners - {key}; }
    }
  }

  lemma CommittedSays(fold: Fold, rows: seq<Row>, key: string, folded: string)
    ensures folded in Committed(fold, rows, key) <==> SaysSo(fold, rows, key, folded)
  {
    if folded in Committed(fold, rows, key) {
      var r :| r in rows && Names(fold, r, key) && fold(r.fourcc) == folded;
    }
    if SaysSo(fold, rows, key, folded) {
      var r :| r in rows && r.canonical.Some? && fold(r.canonical.value) == key && fold(r.fourcc) == folded;
      assert Names(fold, r, key);
    }
  }

  lemma OwnersSay(fold: Fold, rows: seq<Row>, key: string, folded: string)
    ensures key in Owners(fold, rows, folded) <==> SaysSo(fold, rows, key, folded)
  {
    hide Committed;
    OwnersCommit(fold, rows, key, folded);
    CommittedSays(fold, rows, key, folded);
  }

  lemma LevelIdsAre(fold: Fold, rows: seq<Row>, folded: string)
    ensures folded in LevelIds(fold, rows) <==> IsLevelOf(fold, rows, folded)
  {
    hide IsLevelId, Reversed, IsLevelOfRow;
    forall r | r in rows
      ensures IsLevelOfRow(fold, r.fourcc, folded) <==>
                IsLevelId(r.fourcc) && (fold(r.fourcc) == folded || fold(Reversed(r.fourcc)) == folded)
    {
      LevelOfRow(fold, r.fourcc, folded);
    }
  }

  lemma LevelOfRow(fold: Fold, f: string, folded: string)
    ensures IsLevelOfRow(fold, f, folded) <==> IsLevelId(f) && (fold(f) == folded || fold(Reversed(f)) == folded)
  {
    if |f| == 4 {
      assert f[..3] == "LEV" <==> f[0] == 'L' && f[1] == 'E' && f[2] == 'V' by { assert f[..3] == [f[0], f[1], f[2]]; }
      assert Reversed(f) == [f[3], f[2], f[1], f[0]];
    }
  }

  /** Once the claims are accepted, a quarantined class has no row of its own and is served nothing. */
  lemma QuarantinedIsServedNothing(fold: Fold, c: Corpus, n: string)
    requires WellFormed(fold, c) && Accepted(fold, c) && n in c.ledger && IsQuarantined(fold, c, n)
    ensures Committed(fold, c.rows, fold(n)) == {} && Served(fold, c, n) == None
  {
    hide Committed, Owners, LevelIds;
  }

  /** A claim that one of the class's own rows confirms is served, whatever the tags and other classes say. */
  lemma OwnRowIsServed(fold: Fold, c: Corpus, n: string)
    requires n in c.explicit && c.explicit[n].Some? && fold(c.explicit[n].value) in Committed(fold, c.rows, fold(n))
    ensures Served(fold, c, n) == c.explicit[n] && !IsQuarantined(fold, c, n)
  {
    hide Committed, Owners, LevelIds;
  }

  /** Whatever is served is committed to the class itself, or else is no level ID and committed to no class at all. */
  lemma ServedIsUncontested(fold: Fold, c: Corpus, n: string)
    requires n in c.explicit && Served(fold, c, n).Some?
    ensures var f := fold(Served(fold, c, n).value);
            || f in Committed(fold, c.rows, fold(n))
            || (f !in LevelIds(fold, c.rows) && Owners(fold, c.rows, f) == {})
  {
    hide LevelIds, Spelling;
    var key := fold(n);
    if !(c.explicit[n].Some? && !IsQuarantined(fold, c, n)) {
      SpellingExists(fold, c.rows, key, Only(Committed(fold, c.rows, key)));
    } else {
      var f := fold(c.explicit[n].value);
      if f !in Committed(fold, c.rows, key) {
        OwnersCommit(fold, c.rows, key, f);
        assert key !in Owners(fold, c.rows, f);
      }
    }
  }

  lemma OwnersCommit(fold: Fold, rows: seq<Row>, key: string, f: string)
    ensures key in Owners(fold, rows, f) <==> f in Committed(fold, rows, key)
  {
    if key in Owners(fold, rows, f) {
      var r :| r in rows && r.canonical.Some? && fold(r.fourcc) == f && fold(r.canonical.value) == key;
      assert Names(fold, r, key);
    }
    if f in Committed(fold, rows, key) {
      var r :| r in rows && Names(fold, r, key) && fold(r.fourcc) == f;
    }
  }

  /** So two classes are served one FourCC only when rows commit it to both, or to neither. */
  lemma SharedFourcc(fold: Fold, c: Corpus, m: string, n: string)
    requires m in c.explicit && n in c.explicit && Served(fold, c, m).Some? && Served(fold, c, n).Some?
    requires fold(Served(fold, c, m).value) == fold(Served(fold, c, n).value)
    ensures var f := fold(Served(fold, c, m).value);
            f in Committed(fold, c.rows, fold(m)) <==> f in Committed(fold, c.rows, fold(n))
  {
    hide Served, Committed, Owners, LevelIds;
    var f := fold(Served(fold, c, m).value);
    ServedIsUncontested(fold, c, m);
    ServedIsUncontested(fold, c, n);
    OwnersCommit(fold, c.rows, fold(m), f);
    OwnersCommit(fold, c.rows, fold(n), f);
  }

  // The order of the registrar rows

  lemma TablesIgnoreOrder(fold: Fold, a: seq<Row>, b: seq<Row>, key: string)
    requires forall r :: r in a <==> r in b
    ensures Committed(fold, a, key) == Committed(fold, b, key) && Owners(fold, a, key) == Owners(fold, b, key)
    ensures LevelIds(fold, a) == LevelIds(fold, b)
  {
    hide IsLevelId, Reversed;
  }

  /** Acceptance, quarantine and the served FourCC up to case do not depend on the order of the rows. */
  lemma OrderIsIrrelevant(fold: Fold, c: Corpus, rows: seq<Row>, n: string)
    requires WellFormed(fold, c) && n in c.explicit && forall r :: r in c.rows <==> r in rows
    ensures var d := c.(rows := rows);
            && WellFormed(fold, d) && (Accepted(fold, c) <==> Accepted(fold, d))
            && (IsQuarantined(fold, c, n) <==> IsQuarantined(fold, d, n))
            && (Served(fold, c, n).Some? <==> Served(fold, d, n).Some?)
            && (Served(fold, c, n).Some? ==> fold(Served(fold, c, n).value) == fold(Served(fold, d, n).value))
  {
    hide Committed, Owners, LevelIds, Spelling, Contradicted;
    var d := c.(rows := rows);
    forall key ensures Committed(fold, c.rows, key) == Committed(fold, rows, key)
      ensures Owners(fold, c.rows, key) == Owners(fold, rows, key) && LevelIds(fold, c.rows) == LevelIds(fold, rows)
    {
      TablesIgnoreOrder(fold, c.rows, rows, key);
    }
    var key := fold(n);
    if |Committed(fold, rows, key)| == 1 {
      SpellingExists(fold, c.rows, key, Only(Committed(fold, c.rows, key)));
      SpellingExists(fold, rows, key, Only(Committed(fold, rows, key)));
    }
  }

  /** The last row that names the class. */
  ghost predicate LastNaming(fold: Fold, rows: seq<Row>, key: string, k: nat) {
    k < |rows| && Names(fold, rows[k], key) && forall j :: k < j < |rows| ==> !Names(fold, rows[j], key)
  }

  lemma {:induction false} SpellingIsLast(fold: Fold, rows: seq<Row>, key: string, folded: string, k: nat)
    requires LastNaming(fold, rows, key, k) && fold(rows[k].fourcc) == folded
    ensures Spelling(fold, rows, key, folded) == Some(rows[k].fourcc)
    decreases |rows|
  {
    if k < |rows| - 1 {
      SpellingIsLast(fold, rows[..|rows| - 1], key, folded, k);
    }
  }

  /** In every corpus: a class served from its rows gets the text of the last row that names it. */
  lemma LastSpellingIsServed(fold: Fold, c: Corpus, n: string, k: nat)
    requires n in c.explicit && !FromDocument(fold, c, n) && |Committed(fold, c.rows, fold(n))| == 1
    requires LastNaming(fold, c.rows, fold(n), k)
    ensures Served(fold, c, n) == Some(c.rows[k].fourcc)
  {
    hide IsQuarantined, Spelling;
    assert c.rows[k] in c.rows;
    assert fold(c.rows[k].fourcc) in Committed(fold, c.rows, fold(n));
    SpellingIsLast(fold, c.rows, fold(n), Only(Committed(fold, c.rows, fold(n))), k);
  }

  lemma {:induction false} LastNamingExists(fold: Fold, rows: seq<Row>, key: string) returns (k: nat)
    requires exists r :: r in rows && Names(fold, r, key)
    ensures LastNaming(fold, rows, key, k)
    decreases |rows|
  {
    var n := |rows| - 1;
    assert rows == rows[..n] + [rows[n]];
    if Names(fold, rows[n], key) {
      k := n;
    } else {
      k := LastNamingExists(fold, rows[..n], key);
    }
  }

  /** All rows of a class spell its FourCC the same way. */
  ghost predicate OneSpelling(fold: Fold, rows: seq<Row>, key: string) {
    forall r, s :: r in rows && s in rows && Names(fold, r, key) && Names(fold, s, key) ==> r.fourcc == s.fourcc
  }

  /** The served text is the same for every order of the rows. */
  ghost predicate OrderFree(fold: Fold, c: Corpus, n: string)
    requires n in c.explicit
  {
    forall rows :: multiset(rows) == multiset(c.rows) ==> Served(fold, c.(rows := rows), n) == Served(fold, c, n)
  }

  lemma SameRows(a: seq<Row>, b: seq<Row>)
    requires multiset(a) == multiset(b)
    ensures forall r :: r in a <==> r in b
  {
    forall r ensures r in a <==> r in b {
      assert r in a <==> r in multiset(a);
      assert r in b <==> r in multiset(b);
    }
  }

  /** The same rows with one of them moved to the end. */
  lemma MovedLast(rows: seq<Row>, i: nat) returns (moved: seq<Row>)
    requires i < |rows|
    ensures moved != [] && moved[|moved| - 1] == rows[i] && multiset(moved) == multiset(rows)
  {
    moved := rows[..i] + rows[i + 1..] + [rows[i]];
    assert rows == rows[..i] + [rows[i]] + rows[i + 1..];
  }

  lemma ServedFromRows(fold: Fold, c: Corpus, rows: seq<Row>, n: string)
    requires n in c.explicit && multiset(rows) == multiset(c.rows)
    ensures var d := c.(rows := rows);
            && (FromDocument(fold, d, n) <==> FromDocument(fold, c, n))
            && Committed(fold, rows, fold(n)) == Committed(fold, c.rows, fold(n))
            && (forall r :: r in rows <==> r in c.rows)
  {
    hide Committed, Owners, LevelIds, Contradicted, Names;
    SameRows(rows, c.rows);
    forall key ensures Committed(fold, c.rows, key) == Committed(fold, rows, key)
      ensures Owners(fold, c.rows, key) == Owners(fold, rows, key) && LevelIds(fold, c.rows) == LevelIds(fold, rows)
    {
      TablesIgnoreOrder(fold, c.rows, rows, key);
    }
  }

  /**
   Exactly when the served text does not depend on the order of the rows: the class is not served
   from its rows at all, or all of its rows spell the FourCC the same way.
  */
  lemma SpellingIsFixed(fold: Fold, c: Corpus, n: string)
    requires n in c.explicit
    ensures OrderFree(fold, c, n) <==>
              FromDocument(fold, c, n) || |Committed(fold, c.rows, fold(n))| != 1 || OneSpelling(fold, c.rows, fold(n))
  {
    hide IsQuarantined, Spelling, Committed, Names;
    var key := fold(n);
    if FromDocument(fold, c, n) || |Committed(fold, c.rows, key)| != 1 {
      forall rows | multiset(rows) == multiset(c.rows) ensures Served(fold, c.(rows := rows), n) == Served(fold, c, n) {
        ServedFromRows(fold, c, rows, n);
      }
    } else {
      RowsExist(fold, c.rows, key);
      if OneSpelling(fold, c.rows, key) {
        var k := LastNamingExists(fold, c.rows, key);
        LastSpellingIsServed(fold, c, n, k);
        forall rows | multiset(rows) == multiset(c.rows) ensures Served(fold, c.(rows := rows), n) == Served(fold, c, n) {
          ServedFromRows(fold, c, rows, n);
          RowsExist(fold, rows, key);
          var j := LastNamingExists(fold, rows, key);
          LastSpellingIsServed(fold, c.(rows := rows), n, j);
          assert rows[j] in rows && c.rows[k] in c.rows;
        }
      } else {
        TwoSpellings(fold, c, n);
      }
    }
  }

  lemma RowsExist(fold: Fold, rows: seq<Row>, key: string)
    requires Committed(fold, rows, key) != {}
    ensures exists r :: r in rows && Names(fold, r, key)
  {
    var f :| f in Committed(fold, rows, key);
  }

  /** Two spellings give two orders that serve different texts. */
  lemma TwoSpellings(fold: Fold, c: Corpus, n: string)
    requires n in c.explicit && !FromDocument(fold, c, n) && |Committed(fold, c.rows, fold(n))| == 1
    requires !OneSpelling(fold, c.rows, fold(n))
    ensures !OrderFree(fold, c, n)
  {
    hide IsQuarantined, Spelling, Committed, Served, Names, FromDocument;
    var key := fold(n);
    var r, s :| r in c.rows && s in c.rows && Names(fold, r, key) && Names(fold, s, key) && r.fourcc != s.fourcc;
    ServedLast(fold, c, n, r);
    ServedLast(fold, c, n, s);
  }

  lemma ServedLast(fold: Fold, c: Corpus, n: string, r: Row)
    requires n in c.explicit && !FromDocument(fold, c, n) && |Committed(fold, c.rows, fold(n))| == 1
    requires r in c.rows && Names(fold, r, fold(n))
    ensures exists rows :: multiset(rows) == multiset(c.rows) && Served(fold, c.(rows := rows), n) == Some(r.fourcc)
  {
    hide IsQuarantined, Spelling, Committed, Served, Names, FromDocument;
    var i :| 0 <= i < |c.rows| && c.rows[i] == r;
    var rows := MovedLast(c.rows, i);
    ServedFromRows(fold, c, rows, n);
    LastSpellingIsServed(fold, c.(rows := rows), n, |rows| - 1);
  }
}
