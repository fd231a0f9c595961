/** Community label disambiguation (src/cluster/community_labeler.ts). */
module Labels {
  import opened Decimals
  import opened Results

  /** Another community has the same label. */
  ghost predicate Shared(labels: map<nat, string>, i: nat)
    requires i in labels
  {
    exists j :: j in labels && j != i && labels[j] == labels[i]
  }

  ghost predicate Injective(labels: map<nat, string>) {
    forall i, j :: i in labels && j in labels && i != j ==> labels[i] != labels[j]
  }

  /** Every shared label renamed, the others kept. */
  ghost function Disambiguated(labels: map<nat, string>, rename: (nat, string) -> string): map<nat, string> {
    map i | i in labels :: if Shared(labels, i) then rename(i, labels[i]) else labels[i]
  }

  ghost function Holders(labels: map<nat, string>, done: set<nat>, text: string): set<nat> {
    set i | i in done && i in labels && labels[i] == text
  }

  function CountOf(counts: map<string, nat>, text: string): nat {
    if text in counts then counts[text] else 0
  }

  lemma SharedMeansCounted(labels: map<nat, string>, i: nat)
    requires i in labels
    ensures |Holders(labels, labels.Keys, labels[i])| > 1 <==> Shared(labels, i)
  {
    var holders := Holders(labels, labels.Keys, labels[i]);
    assert i in holders;
    var others := holders - {i};
    assert holders == others + {i};
    if Shared(labels, i) {
      var j :| j in labels && j != i && labels[j] == labels[i];
      assert j in others;
    } else {
      assert others == {};
    }
  }

  lemma HoldersGrow(labels: map<nat, string>, done: set<nat>, i: nat, text: string)
    requires i in labels && i !in done
    ensures |Holders(labels, done + {i}, text)| == |Holders(labels, done, text)| + if text == labels[i] then 1 else 0
  {
    if text == labels[i] {
      assert Holders(labels, done + {i}, text) == Holders(labels, done, text) + {i};
    } else {
      assert Holders(labels, done + {i}, text) == Holders(labels, done, text);
    }
  }

  method CountLabels(labels: map<nat, string>) returns (counts: map<string, nat>)
    ensures forall text :: CountOf(counts, text) == |Holders(labels, labels.Keys, text)|
  {
    counts := map[];
    var left := labels.Keys;
    ghost var done: set<nat> := {};
    hide Holders;
    NoHolders(labels);
    while left != {}
      invariant done + left == labels.Keys && done !! left
      invariant forall text :: CountOf(counts, text) == |Holders(labels, done, text)|
      decreases |left|
    {
      var i :| i in left;
      forall text
        ensures |Holders(labels, done + {i}, text)| == |Holders(labels, done, text)| + if text == labels[i] then 1 else 0
      {
        HoldersGrow(labels, done, i, text);
      }
      counts := counts[labels[i] := CountOf(counts, labels[i]) + 1];
      done, left := done + {i}, left - {i};
    }
    assert done == labels.Keys;
  }

  lemma NoHolders(labels: map<nat, string>)
    ensures forall text :: |Holders(labels, {}, text)| == 0
  {
    forall text ensures |Holders(labels, {}, text)| == 0 {
      assert Holders(labels, {}, text) == {};
    }
  }

  /** Counts the labels, then renames those counted more than once. */
  method Disambiguate(labels: map<nat, string>, rename: (nat, string) -> string) returns (result: map<nat, string>)
    ensures result == Disambiguated(labels, rename)
  {
    var counts := CountLabels(labels);
    hide Holders, Shared;
    result := map[];
    var left := labels.Keys;
    while left != {}
      invariant left <= labels.Keys && result.Keys == labels.Keys - left
      invariant forall i :: i in result ==> result[i] == Disambiguated(labels, rename)[i]
      decreases |left|
    {
      var i :| i in left;
      SharedMeansCounted(labels, i);
      result := result[i := if CountOf(counts, labels[i]) > 1 then rename(i, labels[i]) else labels[i]];
      left := left - {i};
    }
  }

  predicate OccursAt(text: string, part: string, k: nat) {
    k + |part| <= |text| && text[k..k + |part|] == part
  }

  predicate Contains(text: string, part: string) {
    exists k: nat :: k <= |text| && OccursAt(text, part, k)
  }

  const SEPARATOR := " \U{00B7} "

  /** The label with its community's hub, when that adds information. */
  function WithHub(hubs: map<nat, Option<string>>): (nat, string) -> string {
    (i: nat, text: string) =>
      if i in hubs && hubs[i].Some? && !Contains(text, hubs[i].value) then text + SEPARATOR + hubs[i].value else text
  }

  /** The label with its community's index. */
  function WithIndex(): (nat, string) -> string {
    (i: nat, text: string) => text + " #" + Decimal(i)
  }

  ghost function Deduped(base: map<nat, string>, hubs: map<nat, Option<string>>): map<nat, string> {
    Disambiguated(Disambiguated(base, WithHub(hubs)), WithIndex())
  }

  /** Hub pass, then index pass. */
  method Dedupe(base: map<nat, string>, hubs: map<nat, Option<string>>) returns (result: map<nat, string>)
    ensures result == Deduped(base, hubs)
  {
    var withHub := Disambiguate(base, WithHub(hubs));
    result := Disambiguate(withHub, WithIndex());
  }

  // ---------- when the labels come out distinct ----------

  /** No label kept by the index pass is one that the pass writes for another community. */
  ghost predicate NoClash(labels: map<nat, string>) {
    forall i, j :: i in labels && j in labels && Shared(labels, i) && !Shared(labels, j) ==> labels[j] != labels[i] + " #" + Decimal(i)
  }

  /** Of two readings of one text as stem and " #" suffix, the shorter stem's suffix contains a '#'. */
  lemma HashInSuffix(a: string, t: string, b: string, u: string)
    requires a + " #" + t == b + " #" + u && |a| < |b|
    ensures '#' in t
  {
    var s := a + " #" + t;
    assert s[|b| + 1] == '#' && s[|b|] == ' ';
    assert |b| != |a| + 1;
    assert s[|b| + 1] == t[|b| - |a| - 1];
  }

  lemma IndexSuffixSplits(a: string, m: nat, b: string, n: nat)
    requires a + " #" + Decimal(m) == b + " #" + Decimal(n)
    ensures a == b && m == n
  {
    if |a| < |b| {
      HashInSuffix(a, Decimal(m), b, Decimal(n));
    } else if |b| < |a| {
      HashInSuffix(b, Decimal(n), a, Decimal(m));
    } else {
      var s := a + " #" + Decimal(m);
      assert a == s[..|a|] && b == s[..|b|];
      assert Decimal(m) == s[|a| + 2..] && Decimal(n) == s[|b| + 2..];
      DecimalInjective(m, n);
    }
  }

  /** The index pass yields distinct labels exactly when no kept label clashes with a written one. */
  lemma IndexPassDistinctIff(labels: map<nat, string>)
    ensures Injective(Disambiguated(labels, WithIndex())) <==> NoClash(labels)
  {
    var result := Disambiguated(labels, WithIndex());
    if NoClash(labels) {
      forall i, j | i in result && j in result && i != j ensures result[i] != result[j] {
        if Shared(labels, i) && Shared(labels, j) && result[i] == result[j] {
          IndexSuffixSplits(labels[i], i, labels[j], j);
        }
      }
    }
    if Injective(result) {
      forall i, j | i in labels && j in labels && Shared(labels, i) && !Shared(labels, j)
        ensures labels[j] != labels[i] + " #" + Decimal(i)
      {
        assert i in result && j in result && i != j;
      }
    }
  }

  /** The label ends in " #" and digits. */
  ghost predicate LooksIndexed(text: string) {
    exists stem: string, n: nat :: text == stem + " #" + Decimal(n)
  }

  /**
   The final labels are pairwise distinct exactly when the index pass meets no clash; in particular
   whenever no label entering it already ends in " #" and a number, whatever the hub pass did.
   */
  lemma FinalLabelsDistinctIff(base: map<nat, string>, hubs: map<nat, Option<string>>)
    ensures var entering := Disambiguated(base, WithHub(hubs));
            && (Injective(Deduped(base, hubs)) <==> NoClash(entering))
            && ((forall i :: i in entering ==> !LooksIndexed(entering[i])) ==> Injective(Deduped(base, hubs)))
  {
    var entering := Disambiguated(base, WithHub(hubs));
    IndexPassDistinctIff(entering);
    if forall i :: i in entering ==> !LooksIndexed(entering[i]) {
      forall i, j | i in entering && j in entering && Shared(entering, i) && !Shared(entering, j)
        ensures entering[j] != entering[i] + " #" + Decimal(i)
      {
        assert !LooksIndexed(entering[j]);
      }
    }
  }

  lemma ContainsSelf(text: string)
    ensures Contains(text, text)
  {
    assert OccursAt(text, text, 0);
  }

  /** The hub pass changes nothing where every label contains its community's hub. */
  lemma HubPassIdle(base: map<nat, string>, hubs: map<nat, Option<string>>)
    requires forall i :: i in base ==> i in hubs && hubs[i] == Some(base[i])
    ensures Disambiguated(base, WithHub(hubs)) == base
  {
    hide Contains, Shared;
    forall i | i in base ensures WithHub(hubs)(i, base[i]) == base[i] {
      ContainsSelf(base[i]);
    }
  }

  /**
   Three communities whose documented-distinct labels collide: "a" twice and "a #0", each with a hub
   that its label already contains, as three single-file communities have whose hub is the file.
   */
  lemma LabelsCanCollide()
    ensures var base: map<nat, string> := map[0 := "a", 1 := "a", 2 := "a #0"];
            var hubs: map<nat, Option<string>> := map[0 := Some("a"), 1 := Some("a"), 2 := Some("a #0")];
            && Deduped(base, hubs)[0] == "a #0" && Deduped(base, hubs)[2] == "a #0"
  {
    var base: map<nat, string> := map[0 := "a", 1 := "a", 2 := "a #0"];
    var hubs: map<nat, Option<string>> := map[0 := Some("a"), 1 := Some("a"), 2 := Some("a #0")];
    HubPassIdle(base, hubs);
    hide Contains, WithHub;
    assert Decimal(0) == "0";
    assert 0 in base && 1 in base && base[1] == base[0];
    assert Shared(base, 0);
    assert !Shared(base, 2);
    hide Shared;
    assert WithIndex()(0, "a") == "a #0";
  }

  /** `after` is `text` unless `hub` adds something: then it is `text`, the separator and `hub`. */
  ghost predicate HubAdded(text: string, hub: string, after: string) {
    if exists before, rest :: text == before + hub + rest then after == text else after == text + SEPARATOR + hub
  }

  /** A label is joined to its hub exactly when the hub is no part of the label. */
  lemma HubOnlyWhenNew(hubs: map<nat, Option<string>>, i: nat, text: string)
    ensures i in hubs && hubs[i].Some? ==> HubAdded(text, hubs[i].value, WithHub(hubs)(i, text))
    ensures i !in hubs || hubs[i].None? ==> WithHub(hubs)(i, text) == text
  {
    if i in hubs && hubs[i].Some? {
      PartIsContained(text, hubs[i].value);
    }
  }

  lemma PartIsContained(text: string, part: string)
    ensures Contains(text, part) <==> exists before, rest :: text == before + part + rest
  {
    if Contains(text, part) {
      var k: nat :| k <= |text| && OccursAt(text, part, k);
      assert text == text[..k] + part + text[k + |part|..];
    }
    if before, rest :| text == before + part + rest {
      assert text[|before|..|before| + |part|] == part;
      assert OccursAt(text, part, |before|);
    }
  }

  lemma HubAdds(text: string, hub: string, hubs: map<nat, Option<string>>, i: nat)
    requires i in hubs && hubs[i] == Some(hub) && |text| == |hub| == 1 && text != hub
    ensures WithHub(hubs)(i, text) == text + SEPARATOR + hub
  {
    forall k: nat | k <= 1 ensures !OccursAt(text, hub, k) {
      if k == 0 {
        assert text[0..1] == text;
      }
    }
  }

  /** The hub pass can make a label collide that was unique before; the index pass then parts the two. */
  lemma HubPassCanCollide(text: string, hub: string)
    requires |text| == |hub| == 1 && text != hub
    ensures var base: map<nat, string> := map[0 := text, 1 := text, 2 := text + SEPARATOR + hub];
            var hubs: map<nat, Option<string>> := map[0 := Some(hub), 1 := None, 2 := None];
            var entering := Disambiguated(base, WithHub(hubs));
            && !Shared(base, 2) && Shared(entering, 2) && Injective(Deduped(base, hubs))
  {
    var long := text + SEPARATOR + hub;
    var base: map<nat, string> := map[0 := text, 1 := text, 2 := long];
    var hubs: map<nat, Option<string>> := map[0 := Some(hub), 1 := None, 2 := None];
    HubAdds(text, hub, hubs, 0);
    hide Contains, OccursAt;
    assert 0 in base && 1 in base;
    assert Shared(base, 0) && Shared(base, 1);
    assert |long| == 5;
    var entering := Disambiguated(base, WithHub(hubs));
    assert entering == map[0 := long, 1 := text, 2 := long];
    hide WithHub, Disambiguated;
    assert 0 in entering && 1 in entering && 2 in entering && entering[0] == entering[2] == long;
    assert Shared(entering, 0) && Shared(entering, 2);
    assert NoClash(entering) by {
      forall i, j | i in entering && j in entering && Shared(entering, i) && !Shared(entering, j)
        ensures entering[j] != entering[i] + " #" + Decimal(i)
      {
        assert j == 1;
      }
    }
    IndexPassDistinctIff(entering);
  }
}
