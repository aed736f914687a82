/** `generate_insights` (app.py:46-54): a fixed, template-based summary. The result is a
    dictionary from section title to narrative, kept here as the sequence of its entries
    in insertion order, which is the order a Python dictionary keeps. */
module Insights {
  import opened Options

  /** One entry of the summary: a title and the narrative shown under it. */
  datatype Section = Section(title: string, narrative: string)

  const OverviewLabel: string := "Overview"
  const KeyChangesLabel: string := "Key Changes"
  const DriversLabel: string := "Possible Drivers"
  const MonitoringLabel: string := "Monitoring Recommendations"

  /** The keys the page reads, in the order it shows them (app.py:76-85). */
  const DisplayedLabels: seq<string> := [OverviewLabel, KeyChangesLabel, DriversLabel, MonitoringLabel]

  /** The narrative under each section. */
  const OverviewNarrative: string :=
    "This dashboard provides a consolidated view of operational performance across multiple teams."
  const KeyChangesNarrative: string :=
    "Several metrics show variation compared to previous periods, indicating potential shifts in workload or performance."
  const DriversNarrative: string :=
    "Observed changes may be driven by operational volume fluctuations, resource allocation, or process bottlenecks."
  const MonitoringNarrative: string :=
    "It is recommended to continue monitoring key KPIs, particularly those approaching predefined thresholds."

  /** The summary. The text it is given is not consulted: every text gets the same four
      sections. */
  function GenerateInsights(text: string): seq<Section> {
    [ Section(OverviewLabel, OverviewNarrative),
      Section(KeyChangesLabel, KeyChangesNarrative),
      Section(DriversLabel, DriversNarrative),
      Section(MonitoringLabel, MonitoringNarrative) ]
  }

  /** The labels of a summary, in order. */
  function Labels(sections: seq<Section>): (r: seq<string>)
    ensures |r| == |sections| && forall k :: 0 <= k < |sections| ==> r[k] == sections[k].title
  {
    seq(|sections|, k requires 0 <= k < |sections| => sections[k].title)
  }

  /** `insights[key]`: the narrative of the entry with that label, `None` where the
      dictionary would raise `KeyError`. */
  function Lookup(sections: seq<Section>, key: string): (r: Option<string>)
    ensures r.Some? <==> exists k :: 0 <= k < |sections| && sections[k].title == key
    decreases |sections|
  {
    if sections == [] then None
    else if sections[0].title == key then Some(sections[0].narrative)
    else
      var rest := Lookup(sections[1..], key);
      assert forall k :: 1 <= k < |sections| ==> sections[1..][k - 1] == sections[k];
      rest
  }

  /** No two entries share a label, as in any dictionary. */
  predicate DistinctLabels(sections: seq<Section>) {
    forall j, k :: 0 <= j < k < |sections| ==> sections[j].title != sections[k].title
  }

  /** With distinct labels, looking a label up finds the narrative stored with it. */
  lemma {:induction false} LookupFinds(sections: seq<Section>, k: nat)
    requires DistinctLabels(sections) && k < |sections|
    ensures Lookup(sections, sections[k].title) == Some(sections[k].narrative)
    decreases k
  {
    if k > 0 {
      assert sections[0].title != sections[k].title;
      assert sections[1..][k - 1] == sections[k];
      LookupFinds(sections[1..], k - 1);
    }
  }

  /** The summary has the four sections the page shows, in the order it shows them, under
      distinct labels and each with a narrative, whatever text it was given. */
  lemma InsightsShape(text: string)
    ensures Labels(GenerateInsights(text)) == DisplayedLabels
    ensures DistinctLabels(GenerateInsights(text))
    ensures forall k :: 0 <= k < 4 ==> |GenerateInsights(text)[k].narrative| > 0
  {
    var r := GenerateInsights(text);
    assert r[0].title[0] == 'O' && r[1].title[0] == 'K' && r[2].title[0] == 'P' && r[3].title[0] == 'M';
  }

  /** Every key the page reads is present, so none of the page's lookups fails, and each
      yields a non-empty narrative. */
  lemma DisplayedLookupsSucceed(text: string, key: string)
    requires key in DisplayedLabels
    ensures Lookup(GenerateInsights(text), key).Some?
    ensures |Lookup(GenerateInsights(text), key).value| > 0
  {
    var r := GenerateInsights(text);
    InsightsShape(text);
    var k :| 0 <= k < 4 && DisplayedLabels[k] == key;
    assert r[k].title == key;
    LookupFinds(r, k);
  }

  /** The summary does not depend on the text. */
  lemma InsightsIgnoreText(t1: string, t2: string)
    ensures GenerateInsights(t1) == GenerateInsights(t2)
  {
  }
}
