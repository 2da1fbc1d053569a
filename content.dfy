/** The fixed list of sections and the reverse lookup from a URL fragment to a section. */
module Content {
  import opened Slug

  /** The `claimTag` of each entry of `content`, in order. */
  const ClaimTags: seq<string> := [
    "Dynamic Schema Needs",
    "Scale-Out Architecture",
    "Complex Data Hierarchies",
    "Performance at Scale",
    "Developer Experience",
    "Geographic Distribution",
    "Real-World Performance",
    "Enterprise Support"
  ]

  /** The slug of each title, in the same order (proved by `SlugTable`). */
  const Slugs: seq<string> := [
    "dynamic-schema-needs",
    "scale-out-architecture",
    "complex-data-hierarchies",
    "performance-at-scale",
    "developer-experience",
    "geographic-distribution",
    "real-world-performance",
    "enterprise-support"
  ]

  /** `findIndex` of the first title whose slug equals `slug`, or -1. */
  function FindIndexBySlug(tags: seq<string>, slug: string): (r: int)
    ensures -1 <= r < |tags|
    ensures r == -1 <==> forall i :: 0 <= i < |tags| ==> GetSectionSlug(tags[i]) != slug
    ensures r != -1 ==> GetSectionSlug(tags[r]) == slug
    ensures forall j :: 0 <= j < r ==> GetSectionSlug(tags[j]) != slug
  {
    if tags == [] then -1
    else if GetSectionSlug(tags[0]) == slug then 0
    else
      var k := FindIndexBySlug(tags[1..], slug);
      if k == -1 then -1 else k + 1
  }

  /** `findSectionIndexBySlug`: the lookup over the fixed content. */
  function FindSectionIndexBySlug(slug: string): (r: int)
    ensures -1 <= r < |ClaimTags|
    ensures r == -1 <==> slug !in Slugs
    ensures r != -1 ==> Slugs[r] == slug
  {
    SlugTable();
    FindIndexBySlug(ClaimTags, slug)
  }

  // The slug of each title, one lemma per computation so that each proof stays small.

  lemma CollapseLoweredTag0()
    ensures Collapse("dynamic schema needs") == "dynamic-schema-needs"
  {
    var a, b, d := "dynamic", "schema", "needs";
    assert "dynamic schema needs" == a + [' '] + b + [' '] + d;
    assert "dynamic-schema-needs" == a + ['-'] + b + ['-'] + d;
    assert IsWord(a) && IsWord(b) && IsWord(d);
    CollapseThreeWords(a, ' ', b, ' ', d);
  }

  lemma ClaimSlug0()
    ensures GetSectionSlug(ClaimTags[0]) == Slugs[0]
  {
    assert Lower(ClaimTags[0]) == "dynamic schema needs";
    CollapseLoweredTag0();
  }

  lemma CollapseLoweredTag1()
    ensures Collapse("scale-out architecture") == "scale-out-architecture"
  {
    var a, b, d := "scale", "out", "architecture";
    assert "scale-out architecture" == a + ['-'] + b + [' '] + d;
    assert "scale-out-architecture" == a + ['-'] + b + ['-'] + d;
    assert IsWord(a) && IsWord(b) && IsWord(d);
    CollapseThreeWords(a, '-', b, ' ', d);
  }

  lemma ClaimSlug1()
    ensures GetSectionSlug(ClaimTags[1]) == Slugs[1]
  {
    assert Lower(ClaimTags[1]) == "scale-out architecture";
    CollapseLoweredTag1();
  }

  lemma CollapseLoweredTag2()
    ensures Collapse("complex data hierarchies") == "complex-data-hierarchies"
  {
    var a, b, d := "complex", "data", "hierarchies";
    assert "complex data hierarchies" == a + [' '] + b + [' '] + d;
    assert "complex-data-hierarchies" == a + ['-'] + b + ['-'] + d;
    assert IsWord(a) && IsWord(b) && IsWord(d);
    CollapseThreeWords(a, ' ', b, ' ', d);
  }

  lemma ClaimSlug2()
    ensures GetSectionSlug(ClaimTags[2]) == Slugs[2]
  {
    assert Lower(ClaimTags[2]) == "complex data hierarchies";
    CollapseLoweredTag2();
  }

  lemma CollapseLoweredTag3()
    ensures Collapse("performance at scale") == "performance-at-scale"
  {
    var a, b, d := "performance", "at", "scale";
    assert "performance at scale" == a + [' '] + b + [' '] + d;
    assert "performance-at-scale" == a + ['-'] + b + ['-'] + d;
    assert IsWord(a) && IsWord(b) && IsWord(d);
    CollapseThreeWords(a, ' ', b, ' ', d);
  }

  lemma ClaimSlug3()
    ensures GetSectionSlug(ClaimTags[3]) == Slugs[3]
  {
    assert Lower(ClaimTags[3]) == "performance at scale";
    CollapseLoweredTag3();
  }

  lemma CollapseLoweredTag4()
    ensures Collapse("developer experience") == "developer-experience"
  {
    var a, b := "developer", "experience";
    assert "developer experience" == a + [' '] + b;
    assert "developer-experience" == a + ['-'] + b;
    assert IsWord(a) && IsWord(b);
    CollapseTwoWords(a, ' ', b);
  }

  lemma ClaimSlug4()
    ensures GetSectionSlug(ClaimTags[4]) == Slugs[4]
  {
    assert Lower(ClaimTags[4]) == "developer experience";
    CollapseLoweredTag4();
  }

  lemma CollapseLoweredTag5()
    ensures Collapse("geographic distribution") == "geographic-distribution"
  {
    var a, b := "geographic", "distribution";
    assert "geographic distribution" == a + [' '] + b;
    assert "geographic-distribution" == a + ['-'] + b;
    assert IsWord(a) && IsWord(b);
    CollapseTwoWords(a, ' ', b);
  }

  lemma ClaimSlug5()
    ensures GetSectionSlug(ClaimTags[5]) == Slugs[5]
  {
    assert Lower(ClaimTags[5]) == "geographic distribution";
    CollapseLoweredTag5();
  }

  lemma CollapseLoweredTag6()
    ensures Collapse("real-world performance") == "real-world-performance"
  {
    var a, b, d := "real", "world", "performance";
    assert "real-world performance" == a + ['-'] + b + [' '] + d;
    assert "real-world-performance" == a + ['-'] + b + ['-'] + d;
    assert IsWord(a) && IsWord(b) && IsWord(d);
    CollapseThreeWords(a, '-', b, ' ', d);
  }

  lemma ClaimSlug6()
    ensures GetSectionSlug(ClaimTags[6]) == Slugs[6]
  {
    assert Lower(ClaimTags[6]) == "real-world performance";
    CollapseLoweredTag6();
  }

  lemma CollapseLoweredTag7()
    ensures Collapse("enterprise support") == "enterprise-support"
  {
    var a, b := "enterprise", "support";
    assert "enterprise support" == a + [' '] + b;
    assert "enterprise-support" == a + ['-'] + b;
    assert IsWord(a) && IsWord(b);
    CollapseTwoWords(a, ' ', b);
  }

  lemma ClaimSlug7()
    ensures GetSectionSlug(ClaimTags[7]) == Slugs[7]
  {
    assert Lower(ClaimTags[7]) == "enterprise support";
    CollapseLoweredTag7();
  }

  /** The slug of the `i`-th title; for example "Scale-Out Architecture" becomes
      "scale-out-architecture". */
  lemma ClaimSlug(i: nat)
    requires i < |ClaimTags|
    ensures GetSectionSlug(ClaimTags[i]) == Slugs[i]
  {
    if i == 0 { ClaimSlug0(); }
    else if i == 1 { ClaimSlug1(); }
    else if i == 2 { ClaimSlug2(); }
    else if i == 3 { ClaimSlug3(); }
    else if i == 4 { ClaimSlug4(); }
    else if i == 5 { ClaimSlug5(); }
    else if i == 6 { ClaimSlug6(); }
    else { ClaimSlug7(); }
  }

  lemma SlugTable()
    ensures |Slugs| == |ClaimTags|
    ensures forall i :: 0 <= i < |ClaimTags| ==> GetSectionSlug(ClaimTags[i]) == Slugs[i]
  {
    forall i | 0 <= i < |ClaimTags| ensures GetSectionSlug(ClaimTags[i]) == Slugs[i] {
      ClaimSlug(i);
    }
  }

  lemma SlugTableDistinct()
    ensures forall i, j :: 0 <= i < j < |Slugs| ==> Slugs[i] != Slugs[j]
  {
  }

  /** No two titles of the content share a slug. */
  lemma SlugsDistinct()
    ensures forall i, j :: 0 <= i < j < |ClaimTags| ==> GetSectionSlug(ClaimTags[i]) != GetSectionSlug(ClaimTags[j])
  {
    forall i, j | 0 <= i < j < |ClaimTags|
      ensures GetSectionSlug(ClaimTags[i]) != GetSectionSlug(ClaimTags[j])
    {
      ClaimSlug(i);
      ClaimSlug(j);
      SlugTableDistinct();
    }
  }

  /** Looking up the slug of any section of the content finds that section. */
  lemma RoundTrip(i: nat)
    requires i < |ClaimTags|
    ensures FindSectionIndexBySlug(GetSectionSlug(ClaimTags[i])) == i
  {
    SlugsDistinct();
  }
}
