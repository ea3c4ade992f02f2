/** Active-link highlighting and the navbar scroll effect: which section the page
    is scrolled to, the `active` class on the nav links, and the `scrolled` class
    on the navbar. */
module Navigation {
  import opened Dom

  /** How far ahead of a section's top its link is highlighted. */
  const LookAhead := 100

  /** The navbar is marked scrolled once the page is scrolled past this offset. */
  const ScrollThreshold := 100

  /** The scroll offset at which a section starts to count as current. */
  function BandTop(s: Section, navHeight: int): int {
    s.offsetTop - navHeight - LookAhead
  }

  /** The band test of the locator: scrollY lies in [top, top + height). */
  predicate InBand(s: Section, scrollY: int, navHeight: int) {
    BandTop(s, navHeight) <= scrollY < BandTop(s, navHeight) + s.height
  }

  /** The index of the last section, in document order, whose band holds scrollY. */
  function LastInBand(sections: seq<Section>, scrollY: int, navHeight: int): (r: Option<nat>)
    ensures r.Some? ==> r.value < |sections| && InBand(sections[r.value], scrollY, navHeight)
    ensures r.Some? ==> forall j :: r.value < j < |sections| ==> !InBand(sections[j], scrollY, navHeight)
    ensures r.None? ==> forall j :: 0 <= j < |sections| ==> !InBand(sections[j], scrollY, navHeight)
  {
    if sections == [] then None
    else if InBand(sections[|sections| - 1], scrollY, navHeight) then Some(|sections| - 1)
    else LastInBand(sections[..|sections| - 1], scrollY, navHeight)
  }

  /** The id attribute of the current section (null for a section without one),
      or the empty string when no band holds scrollY. */
  function CurrentSection(sections: seq<Section>, scrollY: int, navHeight: int): (r: Attribute)
    ensures (forall j :: 0 <= j < |sections| ==> !InBand(sections[j], scrollY, navHeight)) ==> r == Some("")
    ensures r != Some("") ==>
      exists k :: 0 <= k < |sections| && sections[k].id == r && InBand(sections[k], scrollY, navHeight)
  {
    match LastInBand(sections, scrollY, navHeight)
    case Some(k) => sections[k].id
    case None => Some("")
  }

  /** The href a link must have to be highlighted: `#` and the current id, or
      `#null` when the id is null. */
  function Anchor(current: Attribute): (r: string)
    ensures |r| >= 1 && r[0] == '#'
    ensures current.Some? ==> r[1..] == current.value
    ensures current.None? ==> r[1..] == "null"
  {
    "#" + AttributeText(current)
  }

  /** The first pass of highlightActiveSection: every section whose band holds
      scrollY overwrites the current id, so the last one wins. */
  method LocateSection(sections: seq<Section>, scrollY: int, navHeight: int) returns (current: Attribute)
    ensures current == CurrentSection(sections, scrollY, navHeight)
  {
    current := Some("");
    for k := 0 to |sections|
      invariant current == CurrentSection(sections[..k], scrollY, navHeight)
    {
      var sectionTop := sections[k].offsetTop - navHeight - LookAhead;
      var sectionHeight := sections[k].height;
      if scrollY >= sectionTop && scrollY < sectionTop + sectionHeight {
        current := sections[k].id;
      }
      assert sections[..k + 1][..k] == sections[..k];
    }
    assert sections[..|sections|] == sections;
  }

  /** When no section has an empty id, the locator reports the empty string
      exactly when no band holds scrollY, and otherwise the id of a section whose
      band holds scrollY and after which no band does. */
  lemma CurrentSectionIsLastInBand(sections: seq<Section>, scrollY: int, navHeight: int)
    requires forall j :: 0 <= j < |sections| ==> sections[j].id != Some("")
    ensures CurrentSection(sections, scrollY, navHeight) == Some("") <==>
      forall j :: 0 <= j < |sections| ==> !InBand(sections[j], scrollY, navHeight)
    ensures CurrentSection(sections, scrollY, navHeight) != Some("") ==>
      exists k :: 0 <= k < |sections| && sections[k].id == CurrentSection(sections, scrollY, navHeight)
        && InBand(sections[k], scrollY, navHeight)
        && forall j :: k < j < |sections| ==> !InBand(sections[j], scrollY, navHeight)
  {
  }

  /** Above the band of the first section, when the sections are laid out in
      document order, there is no current section. */
  lemma NoSectionAboveFirst(sections: seq<Section>, scrollY: int, navHeight: int)
    requires |sections| > 0
    requires forall j :: 0 <= j < |sections| ==> sections[0].offsetTop <= sections[j].offsetTop
    requires scrollY < BandTop(sections[0], navHeight)
    ensures CurrentSection(sections, scrollY, navHeight) == Some("")
  {
  }

  /** A page of two 800-pixel sections under an 80-pixel navbar. The `about` band
      starts at 800 - 80 - 100 = 620, so offset 750 already highlights `about`. */
  lemma TwoSectionPage()
    ensures var page := [Section(Some("home"), 0, 800), Section(Some("about"), 800, 800)];
      && CurrentSection(page, 600, 80) == Some("home")
      && CurrentSection(page, 750, 80) == Some("about")
      && CurrentSection(page, 820, 80) == Some("about")
      && CurrentSection(page, -181, 80) == Some("")
  {
  }

  /** A section without an id that is current highlights a link whose href is
      `#null`. */
  lemma SectionWithoutId()
    ensures Anchor(CurrentSection([Section(None, 0, 800)], 0, 80)) == "#null"
  {
  }

  /** One link after the second pass: `active` is removed, then added back when
      the link's href is the anchor of the current section. A link without an
      href (null) is never equal to it. */
  function Mark(link: NavLink, target: string): (r: NavLink)
    ensures r.href == link.href
    ensures Active in r.classes <==> link.href == Some(target)
    ensures r.classes - {Active} == link.classes - {Active}
  {
    var cleared := link.classes - {Active};
    link.(classes := if link.href == Some(target) then cleared + {Active} else cleared)
  }

  /** All links after the second pass, for the anchor `target`. */
  function Highlighted(links: seq<NavLink>, target: string): (r: seq<NavLink>)
    ensures |r| == |links|
    ensures forall i :: 0 <= i < |r| ==> r[i].href == links[i].href
    ensures forall i :: 0 <= i < |r| ==> (Active in r[i].classes <==> links[i].href == Some(target))
    ensures forall i :: 0 <= i < |r| ==> r[i].classes - {Active} == links[i].classes - {Active}
  {
    seq(|links|, i requires 0 <= i < |links| => Mark(links[i], target))
  }

  /** When the hrefs are pairwise distinct and one of them is the anchor of the
      current section, exactly that link is active afterwards. */
  lemma HighlightSingleLink(links: seq<NavLink>, target: string, k: nat)
    requires forall i, j :: 0 <= i < j < |links| ==> links[i].href != links[j].href
    requires k < |links| && links[k].href == Some(target)
    ensures forall i :: 0 <= i < |links| ==> (Active in Highlighted(links, target)[i].classes <==> i == k)
  {
  }

  /** A scroll offset in the band of the last section to hold it lights up exactly
      the link to that section. */
  lemma InBandSectionIsHighlighted(sections: seq<Section>, links: seq<NavLink>, scrollY: int, navHeight: int, s: nat, k: nat)
    requires s < |sections| && InBand(sections[s], scrollY, navHeight)
    requires forall j :: s < j < |sections| ==> !InBand(sections[j], scrollY, navHeight)
    requires forall i, j :: 0 <= i < j < |links| ==> links[i].href != links[j].href
    requires k < |links| && links[k].href == Some(Anchor(sections[s].id))
    ensures forall i :: 0 <= i < |links| ==>
      (Active in Highlighted(links, Anchor(CurrentSection(sections, scrollY, navHeight)))[i].classes <==> i == k)
  {
    var r := LastInBand(sections, scrollY, navHeight);
    assert r == Some(s);
    HighlightSingleLink(links, Anchor(sections[s].id), k);
  }

  /** highlightActiveSection: locate the current section, then clear and set the
      `active` class on each link in place. */
  method HighlightActiveSection(sections: seq<Section>, links: array<NavLink>, scrollY: int, navHeight: int)
    modifies links
    ensures links[..] == Highlighted(old(links[..]), Anchor(CurrentSection(sections, scrollY, navHeight)))
  {
    var currentSection := LocateSection(sections, scrollY, navHeight);
    var target := "#" + AttributeText(currentSection);
    for i := 0 to links.Length
      invariant links[..i] == Highlighted(old(links[..i]), target)
      invariant links[i..] == old(links[i..])
    {
      var link := links[i];
      link := link.(classes := link.classes - {Active});
      if link.href == Some(target) {
        link := link.(classes := link.classes + {Active});
      }
      links[i] := link;
      assert links[..i + 1] == links[..i] + [links[i]];
      assert old(links[..i + 1]) == old(links[..i]) + [old(links[i])];
      assert links[i + 1..] == links[i..][1..];
    }
    assert links[..] == links[..links.Length];
    assert old(links[..]) == old(links[..links.Length]);
  }

  /** The navbar's class list after handleNavbarScroll at offset scrollY. */
  function NavbarClasses(classes: set<string>, scrollY: int): (r: set<string>)
    ensures Scrolled in r <==> scrollY > ScrollThreshold
    ensures r - {Scrolled} == classes - {Scrolled}
  {
    if scrollY > ScrollThreshold then classes + {Scrolled} else classes - {Scrolled}
  }

  /** Handling the same offset twice leaves the navbar as handling it once. */
  lemma NavbarIdempotent(classes: set<string>, scrollY: int)
    ensures NavbarClasses(NavbarClasses(classes, scrollY), scrollY) == NavbarClasses(classes, scrollY)
  {
  }

  /** The `.navbar` element. */
  class Navbar {
    var classes: set<string>

    constructor (classes0: set<string>)
      ensures classes == classes0
    {
      classes := classes0;
    }

    /** handleNavbarScroll: add `scrolled` past the threshold, remove it otherwise. */
    method HandleNavbarScroll(scrollY: int)
      modifies this
      ensures classes == NavbarClasses(old(classes), scrollY)
    {
      if scrollY > ScrollThreshold {
        classes := classes + {Scrolled};
      } else {
        classes := classes - {Scrolled};
      }
    }
  }
}
