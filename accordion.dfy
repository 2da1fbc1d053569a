/** The accordion's selection state and its synchronisation with the URL fragment.
    The component's state `openSection : number | null` is the field `openSection`; the
    entries it pushes with `history.pushState` are appended to the field `history`. */
module Accordion {
  import opened Slug
  import opened Content

  datatype Option<T> = None | Some(value: T)

  /** A URL pushed onto the browser history: either `#<slug>` or the bare path. */
  datatype HistoryEntry = Fragment(hash: string) | PathOnly

  /** The toggle transition: toggling the open section closes it, toggling any other
      section opens that one. */
  function NextOnToggle(open: Option<nat>, index: nat): (r: Option<nat>)
    ensures r == None <==> open == Some(index)
    ensures r.Some? ==> r.value == index
  {
    if open == Some(index) then None else Some(index)
  }

  /** The entry a toggle pushes for the new state `next` of section `index`. */
  function PushedOnToggle(next: Option<nat>, index: nat): (e: HistoryEntry)
    requires index < |ClaimTags|
    ensures e.Fragment? <==> next.Some?
    ensures e.Fragment? ==> e.hash == ['#'] + GetSectionSlug(ClaimTags[index])
  {
    if next.Some? then Fragment(['#'] + GetSectionSlug(ClaimTags[index])) else PathOnly
  }

  /** `window.location.hash.slice(1)`: the fragment without its `#`. */
  function FragmentOf(locationHash: string): (r: string)
    ensures locationHash == [] ==> r == []
    ensures locationHash != [] ==> locationHash == [locationHash[0]] + r
  {
    if locationHash == [] then [] else locationHash[1..]
  }

  /** The section a hash change opens, or None when it leaves the state as it is. */
  function HashTarget(locationHash: string): (r: Option<nat>)
    ensures r == None <==>
      FragmentOf(locationHash) == [] || FindSectionIndexBySlug(FragmentOf(locationHash)) == -1
    ensures r.Some? ==> r.value < |ClaimTags| && GetSectionSlug(ClaimTags[r.value]) == FragmentOf(locationHash)
  {
    var hash := FragmentOf(locationHash);
    if hash != [] then
      var sectionIndex := FindSectionIndexBySlug(hash);
      if sectionIndex != -1 then Some(sectionIndex) else None
    else None
  }

  class Site {
    var openSection: Option<nat>
    var history: seq<HistoryEntry>

    /** The open index, when there is one, is the index of a section of the content. */
    ghost predicate Valid()
      reads this
    {
      openSection.Some? ==> openSection.value < |ClaimTags|
    }

    /** `useState(null)` followed by the initial call of the hash-change handler. */
    constructor (locationHash: string)
      ensures Valid()
      ensures openSection == HashTarget(locationHash)
      ensures history == []
    {
      openSection := None;
      history := [];
      new;
      HandleHashChange(locationHash);
    }

    /** `handleHashChange`: an empty or unknown fragment changes nothing; a known
        fragment opens its section. Nothing is pushed onto the history. */
    method HandleHashChange(locationHash: string)
      requires Valid()
      modifies this
      ensures Valid()
      ensures history == old(history)
      ensures openSection == if HashTarget(locationHash).Some? then HashTarget(locationHash) else old(openSection)
    {
      var hash := FragmentOf(locationHash);
      if hash != [] {
        var sectionIndex := FindSectionIndexBySlug(hash);
        if sectionIndex != -1 {
          openSection := Some(sectionIndex);
        }
      }
    }

    /** `handleSectionToggle`: switch the section and push exactly one history entry. */
    method HandleSectionToggle(index: nat)
      requires Valid() && index < |ClaimTags|
      modifies this
      ensures Valid()
      ensures openSection == NextOnToggle(old(openSection), index)
      ensures history == old(history) + [PushedOnToggle(openSection, index)]
    {
      var newOpenSection := if openSection == Some(index) then None else Some(index);
      openSection := newOpenSection;
      if newOpenSection != None {
        var slug := GetSectionSlug(ClaimTags[index]);
        history := history + [Fragment(['#'] + slug)];
      } else {
        history := history + [PathOnly];
      }
    }
  }

  // ---------------------------------------------------------------------------
  // Properties of the transitions.

  /** Toggling one section twice: from any state other than that section open, the
      accordion ends closed; from that section open, it ends with it open again. */
  lemma ToggleTwice(open: Option<nat>, index: nat)
    ensures NextOnToggle(NextOnToggle(open, index), index) == if open == Some(index) then open else None
  {
  }

  /** The fragment a toggle pushes, read back by the hash-change handler, names the
      section the toggle opened. */
  lemma PushedFragmentReopens(index: nat)
    requires index < |ClaimTags|
    ensures HashTarget(PushedOnToggle(Some(index), index).hash) == Some(index)
  {
    RoundTrip(index);
    var h := PushedOnToggle(Some(index), index).hash;
    assert FragmentOf(h) == GetSectionSlug(ClaimTags[index]);
    ClaimSlug(index);
  }

  /** A deep link to `#dynamic-schema-needs` opens the first section on load. */
  lemma DeepLinkOpensFirst()
    ensures HashTarget("#dynamic-schema-needs") == Some(0)
  {
    RoundTrip(0);
    ClaimSlug0();
    assert FragmentOf("#dynamic-schema-needs") == Slugs[0];
  }

  /** An unknown fragment opens nothing, exactly as no fragment at all. */
  lemma UnknownFragmentOpensNothing()
    ensures HashTarget("#not-a-real-topic") == None
    ensures HashTarget("") == None
  {
    var f := FragmentOf("#not-a-real-topic");
    assert f == "not-a-real-topic";
    assert f !in Slugs;
  }
}
