/**
 * The home screen's tip manager: an ordered list of candidate tips and the
 * selection of at most one of them by priority tier (the first HIGH tip, else
 * the first MEDIUM tip, else a random tip of the whole list).
 *
 * Settings reads, the "what's new" check and the random draw are parameters:
 * `shouldDisplayTips`, `isDefaultBrowser`, `shouldHighlightWhatsNew` and a
 * caller-chosen `randomIndex` into the list.
 */
module Tips {

  datatype Option<T> = None | Some(value: T)

  datatype TipPriority =
    | High    // shown before any MEDIUM or LOW tip
    | Medium
    | Low

  /** How the tip is acted on; a switch tip must carry a preference key. */
  datatype TipType = Button | Switch

  /**
   * Which declared tip a value is.  The platform compares tips by identity;
   * this tag makes the five declared tips different values.
   */
  datatype TipId = DefaultBrowser | WhatsNew | PrivateLinks | HideTips | FenixMoving

  /**
   * What a tip's button does.  It is carried and never performed here: each
   * effect starts an activity or opens a page in the browser.
   */
  datatype TipAction =
    | OpenDefaultAppsSettings  // or the support page on older platforms
    | OpenWhatsNewPage         // and records that "what's new" was viewed
    | OpenBetaStorePage
    | NoEffect

  /** A candidate tip.  Icon and texts are opaque resource names. */
  datatype Tip = Tip(
    id: TipId,
    icon: string,
    title: string,
    description: string,
    button: string,
    preferenceKey: Option<string>,
    shouldColorIcon: bool,
    priority: TipPriority,
    kind: TipType,
    action: TipAction
  )

  /** A switch tip names the preference it toggles. */
  predicate WellFormed(t: Tip)
  {
    t.kind == Switch ==> t.preferenceKey.Some?
  }

  // ---------------------------------------------------------------------------
  // The declared tips
  // ---------------------------------------------------------------------------

  const DefaultBrowserTip := Tip(DefaultBrowser, "ic_firefox", "tip_default_browser_header",
    "tip_default_browser_description", "tip_default_browser_button", None,
    false, Low, Button, OpenDefaultAppsSettings)

  const PrivateLinksTip := Tip(PrivateLinks, "ic_private_browsing", "tip_always_private_tab_header",
    "tip_always_private_tab_description", "preferences_open_links_in_a_private_tab",
    Some("pref_key_open_links_in_a_private_tab"), true, Low, Switch, NoEffect)

  const WhatsNewTip := Tip(WhatsNew, "ic_whats_new", "tip_whats_new_header",
    "tip_whats_new_description", "tip_whats_new_button", None,
    true, Medium, Button, OpenWhatsNewPage)

  const HideTipsTip := Tip(HideTips, "ic_info", "tip_hide_tips_header",
    "tip_hide_tips_description", "preference_display_tips",
    Some("pref_key_display_tips"), true, Low, Switch, NoEffect)

  const FenixMovingTip := Tip(FenixMoving, "mozac_ic_warning", "tip_fenix_moving_header",
    "tip_fenix_moving_description", "tip_fenix_moving_button", None,
    true, High, Button, OpenBetaStorePage)

  /** Every tip the manager can hold, in the order the forced population adds them. */
  const AllTips := [DefaultBrowserTip, WhatsNewTip, PrivateLinksTip, HideTipsTip, FenixMovingTip]

  /** The declared tips are well formed and their priorities are those declared. */
  lemma DeclaredTips()
    ensures forall t | t in AllTips :: WellFormed(t)
    ensures |AllTips| == 5
    ensures forall j, k | 0 <= j < k < 5 :: AllTips[j] != AllTips[k]
    ensures AllTips[0].priority == Low && AllTips[1].priority == Medium
    ensures AllTips[2].priority == Low && AllTips[3].priority == Low
    ensures AllTips[4].priority == High
  {
  }

  // ---------------------------------------------------------------------------
  // Specification of the selection
  // ---------------------------------------------------------------------------

  /** The index of the first tip of priority p, if there is one. */
  function FirstWithPriority(tips: seq<Tip>, p: TipPriority): (r: Option<nat>)
    ensures r.Some? ==> r.value < |tips| && tips[r.value].priority == p
    ensures r.Some? ==> forall j | 0 <= j < r.value :: tips[j].priority != p
    ensures r.None? ==> forall j | 0 <= j < |tips| :: tips[j].priority != p
    decreases |tips|
  {
    if tips == [] then None
    else if tips[0].priority == p then Some(0)
    else match FirstWithPriority(tips[1..], p)
      case None => None
      case Some(k) => Some(k + 1)
  }

  /** The random draw is given as an index into a non-empty list. */
  predicate IsDraw(tips: seq<Tip>, randomIndex: nat)
  {
    tips == [] || randomIndex < |tips|
  }

  /**
   * The tip (or critical message) shown: nothing when the list is empty or
   * tips are switched off, else the first HIGH tip, else the first MEDIUM tip,
   * else the drawn tip of the whole list.
   */
  function SelectTip(tips: seq<Tip>, shouldDisplayTips: bool, randomIndex: nat): (r: seq<Tip>)
    requires IsDraw(tips, randomIndex)
    ensures |r| <= 1
    ensures forall t | t in r :: t in tips
    ensures r == [] <==> tips == [] || !shouldDisplayTips
  {
    if tips == [] || !shouldDisplayTips then []
    else match FirstWithPriority(tips, High)
      case Some(k) => [tips[k]]
      case None =>
        match FirstWithPriority(tips, Medium)
        case Some(k) => [tips[k]]
        case None => [tips[randomIndex]]
  }

  /** With tips displayed, the first HIGH tip wins whatever the draw. */
  lemma SelectTipHigh(tips: seq<Tip>, randomIndex: nat, k: nat)
    requires IsDraw(tips, randomIndex)
    requires k < |tips| && tips[k].priority == High
    requires forall j | 0 <= j < k :: tips[j].priority != High
    ensures SelectTip(tips, true, randomIndex) == [tips[k]]
  {
  }

  /** With no HIGH tip, the first MEDIUM tip wins whatever the draw. */
  lemma SelectTipMedium(tips: seq<Tip>, randomIndex: nat, k: nat)
    requires IsDraw(tips, randomIndex)
    requires forall j | 0 <= j < |tips| :: tips[j].priority != High
    requires k < |tips| && tips[k].priority == Medium
    requires forall j | 0 <= j < k :: tips[j].priority != Medium
    ensures SelectTip(tips, true, randomIndex) == [tips[k]]
  {
  }

  /** With only LOW tips, the drawn tip of the whole list is shown. */
  lemma SelectTipDraw(tips: seq<Tip>, randomIndex: nat)
    requires tips != [] && randomIndex < |tips|
    requires forall j | 0 <= j < |tips| :: tips[j].priority == Low
    ensures SelectTip(tips, true, randomIndex) == [tips[randomIndex]]
  {
  }

  /**
   * The list that the regular population appends: the default-browser tip
   * unless the app is the default browser, the "what's new" tip when it is to
   * be highlighted, then the private-links and hide-tips switches.
   */
  function PopulatedTips(isDefaultBrowser: bool, shouldHighlightWhatsNew: bool): seq<Tip>
  {
    (if isDefaultBrowser then [] else [DefaultBrowserTip])
    + (if shouldHighlightWhatsNew then [WhatsNewTip] else [])
    + [PrivateLinksTip, HideTipsTip]
  }

  /** What the regular population adds, tip by tip. */
  lemma PopulatedTipsContents(isDefaultBrowser: bool, shouldHighlightWhatsNew: bool)
    ensures var added := PopulatedTips(isDefaultBrowser, shouldHighlightWhatsNew);
      && 2 <= |added| <= 4
      && (DefaultBrowserTip in added <==> !isDefaultBrowser)
      && (WhatsNewTip in added <==> shouldHighlightWhatsNew)
      && added[|added| - 2..] == [PrivateLinksTip, HideTipsTip]
      && FenixMovingTip !in added
      && (!isDefaultBrowser ==> added[0] == DefaultBrowserTip)
      && (shouldHighlightWhatsNew ==> added[|added| - 3] == WhatsNewTip)
  {
  }

  /**
   * Without the moving notice, a regular list offers the "what's new" tip
   * deterministically when it is highlighted, and the drawn tip otherwise.
   */
  lemma PopulatedSelection(isDefaultBrowser: bool, shouldHighlightWhatsNew: bool, randomIndex: nat)
    requires randomIndex < |PopulatedTips(isDefaultBrowser, shouldHighlightWhatsNew)|
    ensures var tips := PopulatedTips(isDefaultBrowser, shouldHighlightWhatsNew);
      SelectTip(tips, true, randomIndex)
        == if shouldHighlightWhatsNew then [WhatsNewTip] else [tips[randomIndex]]
  {
    var tips := PopulatedTips(isDefaultBrowser, shouldHighlightWhatsNew);
    if shouldHighlightWhatsNew {
      var k := if isDefaultBrowser then 0 else 1;
      assert tips[k] == WhatsNewTip;
      SelectTipMedium(tips, randomIndex, k);
    } else {
      SelectTipDraw(tips, randomIndex);
    }
  }

  /** The full list selects the moving notice, whatever the draw. */
  lemma AllTipsSelectMoving(randomIndex: nat)
    requires randomIndex < |AllTips|
    ensures SelectTip(AllTips, true, randomIndex) == [FenixMovingTip]
  {
    SelectTipHigh(AllTips, randomIndex, 4);
  }

  // ---------------------------------------------------------------------------
  // The manager
  // ---------------------------------------------------------------------------

  class TipManager {
    /** The candidate tips, in the order they were added. */
    var tipList: seq<Tip>

    /** The list only ever holds declared tips, and so only well-formed ones. */
    ghost predicate Valid()
      reads this
    {
      forall t | t in tipList :: t in AllTips
    }

    /** A new manager is filled by the forced population: all five tips. */
    constructor ()
      ensures Valid()
      ensures tipList == AllTips
    {
      tipList := [];
      new;
      ForceAddAllTips();
    }

    /**
     * The tip or critical message to show: at most one tip, found by the
     * priority scan that SelectTip specifies.  The list is only read.
     */
    method GetTipOrCriticalMessage(shouldDisplayTips: bool, randomIndex: nat) returns (r: seq<Tip>)
      requires IsDraw(tipList, randomIndex)
      ensures r == SelectTip(tipList, shouldDisplayTips, randomIndex)
    {
      if tipList == [] || !shouldDisplayTips {
        return [];
      }
      for i := 0 to |tipList|
        invariant forall j | 0 <= j < i :: tipList[j].priority != High
      {
        if tipList[i].priority == High {
          SelectTipHigh(tipList, randomIndex, i);
          return [tipList[i]];
        }
      }
      for i := 0 to |tipList|
        invariant forall j | 0 <= j < i :: tipList[j].priority != Medium
      {
        if tipList[i].priority == Medium {
          SelectTipMedium(tipList, randomIndex, i);
          return [tipList[i]];
        }
      }
      r := [tipList[randomIndex]];
    }

    /** All tips, in list order, when tips are displayed; none otherwise. */
    function GetAllTips(shouldDisplayTips: bool): (r: seq<Tip>)
      reads this
      ensures shouldDisplayTips ==> r == tipList
      ensures !shouldDisplayTips ==> r == []
    {
      if shouldDisplayTips then tipList else []
    }

    /** The regular population: appends the tips the settings call for. */
    method PopulateTipList(isDefaultBrowser: bool, shouldHighlightWhatsNew: bool)
      requires Valid()
      modifies this
      ensures Valid()
      ensures tipList == old(tipList) + PopulatedTips(isDefaultBrowser, shouldHighlightWhatsNew)
    {
      if !isDefaultBrowser {
        tipList := tipList + [DefaultBrowserTip];
      }
      if shouldHighlightWhatsNew {
        tipList := tipList + [WhatsNewTip];
      }
      tipList := tipList + [PrivateLinksTip, HideTipsTip];
    }

    /** The forced population used for testing and demos: appends all five tips. */
    method ForceAddAllTips()
      requires Valid()
      modifies this
      ensures Valid()
      ensures tipList == old(tipList) + AllTips
    {
      tipList := tipList + [DefaultBrowserTip, WhatsNewTip, PrivateLinksTip, HideTipsTip, FenixMovingTip];
    }
  }

  /** Every selected tip is also among the tips the manager lists. */
  lemma SelectionAmongAllTips(m: TipManager, shouldDisplayTips: bool, randomIndex: nat)
    requires IsDraw(m.tipList, randomIndex)
    ensures forall t | t in SelectTip(m.tipList, shouldDisplayTips, randomIndex) :: t in m.GetAllTips(shouldDisplayTips)
  {
  }

  /** A manager whose list holds only declared tips selects a well-formed tip. */
  lemma SelectionWellFormed(m: TipManager, shouldDisplayTips: bool, randomIndex: nat)
    requires m.Valid() && IsDraw(m.tipList, randomIndex)
    ensures forall t | t in SelectTip(m.tipList, shouldDisplayTips, randomIndex) :: WellFormed(t)
  {
    DeclaredTips();
  }

  /** A fresh manager with tips displayed shows the moving notice, whatever the draw. */
  method FreshManagerSelection(randomIndex: nat) returns (r: seq<Tip>)
    requires randomIndex < 5
    ensures r == [FenixMovingTip]
  {
    var manager := new TipManager();
    r := manager.GetTipOrCriticalMessage(true, randomIndex);
    AllTipsSelectMoving(randomIndex);
  }
}
