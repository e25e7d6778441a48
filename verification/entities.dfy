/** The entity dictionary of `generate_basic_metadata_from_text`. The three
    regular-expression scans are not modelled: their match lists are inputs.
    What is modelled is the fixed shape of the dictionary and the
    `list(set(matches))[:k]` step, whose order Python leaves unspecified; the
    model lists distinct matches in first-occurrence order, and the contracts
    state only what holds for every order. */
module Entities {
  import opened Seqs

  /** What `re.findall` returns for the capitalised-phrase, date and
      percentage patterns, in match order. */
  datatype Matches = Matches(capitalized: seq<string>, dates: seq<string>, percentages: seq<string>)

  const PersonLimit: nat := 5
  const DateLimit: nat := 3

  const PersonKey: string := "PERSON"
  const OrgKey: string := "ORG"
  const DateKey: string := "DATE"
  const PercentKey: string := "PERCENT"

  /** `list(set(xs))`. */
  function Dedupe(xs: seq<string>): (r: seq<string>)
    ensures NoDup(r)
    ensures forall x :: x in r <==> x in xs
  {
    Distinct(xs)
  }

  /** `list(set(xs))[:limit]`. */
  function DedupeCap(xs: seq<string>, limit: nat): (r: seq<string>)
    ensures |r| <= limit
    ensures NoDup(r)
    ensures forall x :: x in r ==> x in xs
    ensures |r| < limit ==> forall x :: x in xs ==> x in r
  {
    var d := Distinct(xs);
    var r := Take(d, limit);
    assert forall i :: 0 <= i < |r| ==> r[i] == d[i];
    r
  }

  /** The `entities` dictionary for the (preprocessed) text. */
  function Entities(text: string, m: Matches): (r: map<string, seq<string>>)
    ensures r.Keys == {PersonKey, OrgKey, DateKey, PercentKey}
    ensures r[OrgKey] == []
    ensures text == [] ==> r[PersonKey] == [] && r[DateKey] == [] && r[PercentKey] == []
    ensures forall k :: k in r ==> NoDup(r[k])
    ensures |r[PersonKey]| <= PersonLimit && |r[DateKey]| <= DateLimit
    ensures text != [] ==>
              && (forall x :: x in r[PersonKey] ==> x in m.capitalized)
              && (|r[PersonKey]| < PersonLimit ==> forall x :: x in m.capitalized ==> x in r[PersonKey])
              && (forall x :: x in r[DateKey] ==> x in m.dates)
              && (|r[DateKey]| < DateLimit ==> forall x :: x in m.dates ==> x in r[DateKey])
              && (forall x :: x in r[PercentKey] <==> x in m.percentages)
  {
    if text == [] then
      map[PersonKey := [], OrgKey := [], DateKey := [], PercentKey := []]
    else
      map[PersonKey := DedupeCap(m.capitalized, PersonLimit),
          OrgKey := [],
          DateKey := DedupeCap(m.dates, DateLimit),
          PercentKey := Dedupe(m.percentages)]
  }

  /** Whether the cap is reached depends only on the distinct values
      matched. */
  lemma CapNotReached(xs1: seq<string>, xs2: seq<string>, limit: nat)
    requires forall x :: x in xs1 <==> x in xs2
    requires |DedupeCap(xs1, limit)| < limit
    ensures |DedupeCap(xs2, limit)| < limit
  {
    var r1, r2 := DedupeCap(xs1, limit), DedupeCap(xs2, limit);
    assert Elems(xs1) == Elems(xs2) by {
      forall x ensures x in Elems(xs1) <==> x in Elems(xs2) {
        if x in Elems(xs1) {
          var i :| 0 <= i < |xs1| && xs1[i] == x;
          assert x in xs2;
        }
        if x in Elems(xs2) {
          var i :| 0 <= i < |xs2| && xs2[i] == x;
          assert x in xs1;
        }
      }
    }
    NoDupWithin(r2, xs2);
    assert Elems(xs1) <= Elems(r1) by {
      forall x | x in Elems(xs1) ensures x in Elems(r1) {
        var i :| 0 <= i < |xs1| && xs1[i] == x;
        assert x in r1;
        var j :| 0 <= j < |r1| && r1[j] == x;
      }
    }
    SubsetCard(Elems(xs1), Elems(r1));
    NoDupCard(r1);
  }

  /** Only the distinct values matched matter: two scans that found the same
      values, in any order and with any repetition, give entity lists with the
      same percentages and, whenever the caps are not reached, the same
      persons and dates. */
  lemma EntitiesIgnoreMatchOrder(text: string, m1: Matches, m2: Matches)
    requires text != []
    requires forall x :: x in m1.capitalized <==> x in m2.capitalized
    requires forall x :: x in m1.dates <==> x in m2.dates
    requires forall x :: x in m1.percentages <==> x in m2.percentages
    ensures var r1, r2 := Entities(text, m1), Entities(text, m2);
      && (forall x :: x in r1[PercentKey] <==> x in r2[PercentKey])
      && (|r1[PersonKey]| < PersonLimit ==> forall x :: x in r1[PersonKey] <==> x in r2[PersonKey])
      && (|r1[DateKey]| < DateLimit ==> forall x :: x in r1[DateKey] <==> x in r2[DateKey])
  {
    var r1, r2 := Entities(text, m1), Entities(text, m2);
    if |r1[PersonKey]| < PersonLimit {
      CapNotReached(m1.capitalized, m2.capitalized, PersonLimit);
    }
    if |r1[DateKey]| < DateLimit {
      CapNotReached(m1.dates, m2.dates, DateLimit);
    }
  }
}
