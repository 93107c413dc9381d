/** The membership action a club tier card offers its viewer
    (src/components/Club/ClubTierItem.tsx): the values derived from the viewer's
    membership and the tier, and the nested choice of button. */
module ClubTierItem {
  import opened Wrappers

  /** The viewer's membership in the tier's club, as the card reads it. Dates are
      instants; a `Date` object is always truthy, so a present date counts as set. */
  datatype Membership = Membership(
    tierId: Option<int>,
    unitAmount: int,
    downgradeTierId: Option<int>,
    cancelledAt: Option<int>,
    expiresAt: Option<int>,
    nextBillingAt: int)

  /** The tier shown on the card, with its number of memberships. */
  datatype TierView = TierView(id: int, unitAmount: int, memberLimit: Option<int>, memberCount: nat)

  /** The four membership mutations whose pending state disables the buttons. */
  datatype Mutations = Mutations(updating: bool, creating: bool, canceling: bool, restoring: bool)

  /** `updating` (ClubTierItem.tsx:49-53): some membership mutation is in flight. */
  predicate Busy(m: Mutations)
  {
    m.updating || m.creating || m.canceling || m.restoring
  }

  /** `isTierMember` (ClubTierItem.tsx:55): the viewer's membership is on this tier. */
  predicate IsTierMember(membership: Option<Membership>, tier: TierView)
  {
    membership.Some? && membership.value.tierId == Some(tier.id)
  }

  /** `remainingSpots` (ClubTierItem.tsx:56-58): no value when the member limit is absent
      or 0, otherwise the free places, never below zero. */
  function RemainingSpots(tier: TierView): (r: Option<int>)
    ensures r.None? <==> !Truthy(tier.memberLimit)
    ensures r.Some? ==> 0 <= r.value
    ensures r.Some? && tier.memberLimit.value > 0 ==> r.value <= tier.memberLimit.value
    ensures r.Some? ==> (r.value == 0 <==> tier.memberCount >= tier.memberLimit.value)
    ensures r.Some? && tier.memberCount < tier.memberLimit.value ==>
              r.value + tier.memberCount == tier.memberLimit.value
  {
    if Truthy(tier.memberLimit) then
      var free := tier.memberLimit.value - tier.memberCount;
      Some(if free < 0 then 0 else free)
    else None
  }

  /** `isUpgrade` (ClubTierItem.tsx:168): a member of another tier that costs less. */
  predicate IsUpgrade(membership: Option<Membership>, tier: TierView)
  {
    membership.Some? && !IsTierMember(membership, tier) && membership.value.unitAmount < tier.unitAmount
  }

  /** `isDowngrade` (ClubTierItem.tsx:169): a member of another tier that costs more. */
  predicate IsDowngrade(membership: Option<Membership>, tier: TierView)
  {
    membership.Some? && !IsTierMember(membership, tier) && membership.value.unitAmount > tier.unitAmount
  }

  /** `isNextDowngradeTier` (ClubTierItem.tsx:170): this tier is the pending downgrade target. */
  predicate IsNextDowngradeTier(membership: Option<Membership>, tier: TierView)
  {
    membership.Some? && membership.value.downgradeTierId == Some(tier.id)
  }

  /** Never both an upgrade and a downgrade; neither without a membership, on the current
      tier, or at an equal price; and for a member of another tier, exactly one of them
      unless the prices are equal. */
  lemma UpgradeAndDowngradeExclusive(membership: Option<Membership>, tier: TierView)
    ensures !(IsUpgrade(membership, tier) && IsDowngrade(membership, tier))
    ensures membership.None? || IsTierMember(membership, tier)
            || membership.value.unitAmount == tier.unitAmount
            ==> !IsUpgrade(membership, tier) && !IsDowngrade(membership, tier)
    ensures membership.Some? && !IsTierMember(membership, tier)
            && membership.value.unitAmount != tier.unitAmount
            ==> IsUpgrade(membership, tier) != IsDowngrade(membership, tier)
  {
  }

  /** What the handlers do once confirmed. */
  datatype Handler = Join | Update | Restore | Cancel

  /** The date shown after "Active" on the current tier's button. */
  datatype ActiveLabel = Until(date: int) | NoDate

  /** The membership control of the card (ClubTierItem.tsx:338-392). */
  datatype TierAction =
    | NoAction
    | ActiveOn(date: int)
    | CurrentTier(onClick: Handler, until: ActiveLabel, restoreHint: bool)
    | DowngradeButton(disabled: bool)
    | BuzzButton(onPerform: Handler, caption: string, buzzAmount: int, disabled: bool)

  /** Click handler of the current tier's button (ClubTierItem.tsx:351-357). */
  function CurrentTierHandler(m: Membership): (h: Handler)
    ensures h == Update <==> Truthy(m.downgradeTierId)
    ensures h == Restore <==> !Truthy(m.downgradeTierId) && m.cancelledAt.Some?
    ensures h == Cancel <==> !Truthy(m.downgradeTierId) && m.cancelledAt.None?
    ensures h != Join
  {
    if Truthy(m.downgradeTierId) then Update
    else if m.cancelledAt.Some? then Restore
    else Cancel
  }

  /** Date after "Active" (ClubTierItem.tsx:360-364): the expiry when there is one, else the
      next billing date when a downgrade is pending, else none. */
  function CurrentTierLabel(m: Membership): (l: ActiveLabel)
    ensures m.expiresAt.Some? ==> l == Until(m.expiresAt.value)
    ensures m.expiresAt.None? && Truthy(m.downgradeTierId) ==> l == Until(m.nextBillingAt)
    ensures l.NoDate? <==> m.expiresAt.None? && !Truthy(m.downgradeTierId)
  {
    if m.expiresAt.Some? then Until(m.expiresAt.value)
    else if Truthy(m.downgradeTierId) then Until(m.nextBillingAt)
    else NoDate
  }

  /** The nested choice of control: nothing for the owner, the inert "Active on" button on
      the pending downgrade target, the current tier's button, the Downgrade button, and
      otherwise the Buzz button that upgrades or joins. */
  function ChooseAction(isOwner: bool, membership: Option<Membership>, tier: TierView, mutations: Mutations)
    : (r: TierAction)
    ensures r.NoAction? <==> isOwner
    ensures r.CurrentTier? ==> r.onClick != Join
    ensures r.DowngradeButton? ==> IsDowngrade(membership, tier)
    ensures r.BuzzButton? ==> r.buzzAmount == tier.unitAmount
  {
    if isOwner then NoAction
    else if IsNextDowngradeTier(membership, tier) then ActiveOn(membership.value.nextBillingAt)
    else if IsTierMember(membership, tier) then
      var m := membership.value;
      CurrentTier(CurrentTierHandler(m), CurrentTierLabel(m), m.cancelledAt.Some?)
    else if IsDowngrade(membership, tier) then DowngradeButton(RemainingSpots(tier) == Some(0))
    else
      var upgrade := IsUpgrade(membership, tier);
      BuzzButton(if upgrade then Update else Join,
                 if upgrade then "Upgrade" else "Become a member",
                 tier.unitAmount,
                 Busy(mutations) || RemainingSpots(tier) == Some(0))
  }

  /** The pending downgrade target shows the inert "Active on" button dated at the next
      billing, even when it is also the viewer's current tier. */
  lemma DowngradeTargetTakesPrecedence(membership: Option<Membership>, tier: TierView, mutations: Mutations)
    requires IsNextDowngradeTier(membership, tier)
    ensures ChooseAction(false, membership, tier, mutations) == ActiveOn(membership.value.nextBillingAt)
    ensures ChooseAction(true, membership, tier, mutations) == NoAction
  {
  }

  /** On the viewer's current tier, unless it is also the downgrade target, the button
      updates when a downgrade is pending, restores a cancelled membership, and otherwise
      cancels; the restore hint shows exactly for a cancelled membership. */
  lemma CurrentTierButton(membership: Option<Membership>, tier: TierView, mutations: Mutations)
    requires IsTierMember(membership, tier) && !IsNextDowngradeTier(membership, tier)
    ensures var r := ChooseAction(false, membership, tier, mutations);
            var m := membership.value;
            && r.CurrentTier?
            && (r.onClick == Update <==> Truthy(m.downgradeTierId))
            && (r.onClick == Restore <==> !Truthy(m.downgradeTierId) && m.cancelledAt.Some?)
            && (r.onClick == Cancel <==> !Truthy(m.downgradeTierId) && m.cancelledAt.None?)
            && (r.restoreHint <==> m.cancelledAt.Some?)
  {
  }

  /** The Downgrade button's `disabled` prop holds exactly when the tier is full; unlike the
      Buzz button's, it does not depend on the mutations in flight. */
  lemma DowngradeDisabledOnlyWhenFull(membership: Option<Membership>, tier: TierView, mutations: Mutations)
    requires IsDowngrade(membership, tier) && !IsNextDowngradeTier(membership, tier)
    ensures var r := ChooseAction(false, membership, tier, mutations);
            r.DowngradeButton?
            && (r.disabled <==> Truthy(tier.memberLimit) && tier.memberCount >= tier.memberLimit.value)
  {
  }

  /** The Buzz button upgrades, labelled "Upgrade", exactly for an upgrade and otherwise
      joins, labelled "Become a member"; it is disabled exactly while a mutation is in flight
      or when the tier is full. */
  lemma BuzzButtonChoice(membership: Option<Membership>, tier: TierView, mutations: Mutations)
    requires !IsNextDowngradeTier(membership, tier) && !IsTierMember(membership, tier)
    requires !IsDowngrade(membership, tier)
    ensures var r := ChooseAction(false, membership, tier, mutations);
            && r.BuzzButton?
            && (r.onPerform == Update <==> IsUpgrade(membership, tier))
            && (r.onPerform == Join <==> !IsUpgrade(membership, tier))
            && (r.caption == "Upgrade" <==> IsUpgrade(membership, tier))
            && (r.disabled <==> Busy(mutations)
                                || (Truthy(tier.memberLimit) && tier.memberCount >= tier.memberLimit.value))
  {
  }

  /** A member of another tier of the same price is offered to join again, not to change
      tier, and a viewer without a membership is always offered to join. */
  lemma EqualPriceOffersJoin(membership: Option<Membership>, tier: TierView, mutations: Mutations)
    requires !IsNextDowngradeTier(membership, tier) && !IsTierMember(membership, tier)
    requires membership.None? || membership.value.unitAmount == tier.unitAmount
    ensures var r := ChooseAction(false, membership, tier, mutations);
            r.BuzzButton? && r.onPerform == Join && r.caption == "Become a member"
  {
    UpgradeAndDowngradeExclusive(membership, tier);
  }

  /** The confirmation `handleMembershipUpdate` opens (ClubTierItem.tsx:189-257): an
      upgrade is charged now; any other change takes effect at the next billing date. */
  datatype UpdateConfirmation = ChargedNow | AtNextBilling(date: Option<int>)

  function ConfirmUpdate(membership: Option<Membership>, tier: TierView): (c: UpdateConfirmation)
    ensures c.ChargedNow? <==> IsUpgrade(membership, tier)
    ensures c.AtNextBilling? && membership.Some? ==> c.date == Some(membership.value.nextBillingAt)
  {
    if IsUpgrade(membership, tier) then ChargedNow
    else AtNextBilling(if membership.Some? then Some(membership.value.nextBillingAt) else None)
  }

  /** Every route to `handleMembershipUpdate` other than the Upgrade button, that is the
      Downgrade button and the current tier's button while a downgrade is pending, defers
      the change to the next billing date. */
  lemma UpdateFromDowngradeOrCurrentIsDeferred(membership: Option<Membership>, tier: TierView,
                                               mutations: Mutations)
    requires membership.Some?
    requires var r := ChooseAction(false, membership, tier, mutations);
             r.DowngradeButton? || (r.CurrentTier? && r.onClick == Update)
    ensures ConfirmUpdate(membership, tier) == AtNextBilling(Some(membership.value.nextBillingAt))
  {
    UpgradeAndDowngradeExclusive(membership, tier);
  }
}
