/** The four-step onboarding wizard (src/components/Onboarding.tsx): business
    type, location, interests and business size, each step answered by
    picking from a fixed list before the next one opens. */
module Onboarding {
  import opened Wrappers

  /** The profile the wizard fills in; `""` and `[]` mean not chosen yet. */
  datatype Profile = Profile(businessType: string, location: string, interests: seq<string>, businessSize: string)

  const EmptyProfile := Profile("", "", [], "")

  const BusinessTypes: seq<string> := ["음식점/카페", "소매점/편의점", "미용/뷰티", "서비스업", "제조업", "기타"]

  const Locations: seq<string> := [
    "서울", "인천", "경기", "부산", "대구", "광주", "대전", "울산", "세종",
    "강원", "충북", "충남", "전북", "전남", "경북", "경남", "제주"
  ]

  /** The ids of the interest options (their labels and icons are display only). */
  const InterestIds: seq<string> := ["subsidy", "loan", "tax", "labor", "hygiene", "marketing", "education", "export"]

  const BusinessSizes: seq<string> := ["1인 사업자", "5인 미만", "5~10인", "10인 이상"]

  const LastStep := 4

  /** Every offered option is a non-empty string, so choosing one answers its step. */
  lemma OptionsNonEmpty()
    ensures "" !in BusinessTypes && "" !in Locations && "" !in InterestIds && "" !in BusinessSizes
  {
  }

  // ---------------------------------------------------------------------
  // The interest toggle
  // ---------------------------------------------------------------------

  /** `s.filter(i => i !== x)`: every copy of `x` goes, every other item
      stays as often as it was there. */
  function RemoveAll(s: seq<string>, x: string): (r: seq<string>)
    ensures |r| <= |s| && (x in s ==> |r| < |s|)
    ensures forall y :: y in r <==> y in s && y != x
    ensures multiset(r) == multiset(s)[x := 0]
  {
    if s == [] then []
    else
      var init := RemoveAll(s[..|s| - 1], x);
      assert s == s[..|s| - 1] + [s[|s| - 1]];
      if s[|s| - 1] == x then init else init + [s[|s| - 1]]
  }

  /** The filter keeps the order of what stays: filtering two parts of a list
      and concatenating is filtering the whole. */
  lemma {:induction false} RemoveAllAppend(a: seq<string>, b: seq<string>, x: string)
    ensures RemoveAll(a + b, x) == RemoveAll(a, x) + RemoveAll(b, x)
    decreases |b|
  {
    if b == [] {
      assert a + b == a;
    } else {
      var init, last := b[..|b| - 1], b[|b| - 1];
      assert (a + b)[..|a + b| - 1] == a + init && (a + b)[|a + b| - 1] == last;
      RemoveAllAppend(a, init, x);
    }
  }

  /** Removing an absent item changes nothing. */
  lemma {:induction false} RemoveAbsent(s: seq<string>, x: string)
    requires x !in s
    ensures RemoveAll(s, x) == s
  {
    if s != [] {
      assert s[..|s| - 1] + [s[|s| - 1]] == s;
      RemoveAbsent(s[..|s| - 1], x);
    }
  }

  /** No id is listed twice. */
  predicate NoDuplicates(s: seq<string>)
  {
    forall i, j :: 0 <= i < j < |s| ==> s[i] != s[j]
  }

  /** Filtering keeps a list free of duplicates. */
  lemma {:induction false} RemoveAllNoDuplicates(s: seq<string>, x: string)
    requires NoDuplicates(s)
    ensures NoDuplicates(RemoveAll(s, x))
  {
    if s != [] {
      var init, last := s[..|s| - 1], s[|s| - 1];
      assert NoDuplicates(init) by {
        forall i, j | 0 <= i < j < |init| ensures init[i] != init[j] {
          assert init[i] == s[i] && init[j] == s[j];
        }
      }
      RemoveAllNoDuplicates(init, x);
      assert last !in init by {
        forall i | 0 <= i < |init| ensures init[i] != last {
          assert init[i] == s[i];
        }
      }
    }
  }

  /** `handleInterestToggle`'s list update: a chosen id is dropped (every
      copy of it), any other id is appended. */
  function Toggled(interests: seq<string>, id: string): (r: seq<string>)
    ensures id !in interests ==> r == interests + [id]
    ensures id in interests ==> id !in r && |r| < |interests| && multiset(r) == multiset(interests)[id := 0]
    ensures forall y :: y != id ==> (y in r <==> y in interests)
  {
    if id in interests then RemoveAll(interests, id) else interests + [id]
  }

  /** Toggling keeps the interests free of duplicates. */
  lemma ToggleKeepsNoDuplicates(interests: seq<string>, id: string)
    requires NoDuplicates(interests)
    ensures NoDuplicates(Toggled(interests, id))
  {
    if id in interests {
      RemoveAllNoDuplicates(interests, id);
    }
  }

  /** Choosing an interest and then un-choosing it restores the list exactly. */
  lemma ToggleTwiceRestores(interests: seq<string>, id: string)
    requires id !in interests
    ensures Toggled(Toggled(interests, id), id) == interests
  {
    var s := interests + [id];
    assert s[..|s| - 1] == interests;
    RemoveAbsent(interests, id);
  }

  // ---------------------------------------------------------------------
  // Steps
  // ---------------------------------------------------------------------

  /** `canProceed`: whether the question of `step` has been answered. */
  function CanProceedAt(step: int, p: Profile): (ok: bool)
    ensures step == 1 ==> (ok <==> p.businessType != "")
    ensures step == 2 ==> (ok <==> p.location != "")
    ensures step == 3 ==> (ok <==> p.interests != [])
    ensures step == 4 ==> (ok <==> p.businessSize != "")
    ensures !(1 <= step <= LastStep) ==> !ok
  {
    match step
    case 1 => p.businessType != ""
    case 2 => p.location != ""
    case 3 => |p.interests| > 0
    case 4 => p.businessSize != ""
    case _ => false
  }

  /** Every question answered. */
  predicate Complete(p: Profile)
  {
    p.businessType != "" && p.location != "" && p.interests != [] && p.businessSize != ""
  }

  /** A profile is complete exactly when every step may be left. */
  lemma CompleteIffEveryStep(p: Profile)
    ensures Complete(p) <==> forall step :: 1 <= step <= LastStep ==> CanProceedAt(step, p)
  {
    if forall step :: 1 <= step <= LastStep ==> CanProceedAt(step, p) {
      assert CanProceedAt(1, p) && CanProceedAt(2, p) && CanProceedAt(3, p) && CanProceedAt(4, p);
    }
  }

  /** The empty profile cannot leave the first step. */
  lemma InitiallyBlocked()
    ensures !CanProceedAt(1, EmptyProfile)
  {
  }

  /** The wizard's state: the step shown and the profile so far. Each option
      button is rendered only on its own step, and the next button is
      disabled while `canProceed` is false; the methods' preconditions say so. */
  class Wizard {
    var step: int
    var profile: Profile

    /** Every reachable state: a step of the wizard, every earlier step
        answered, and the interests distinct ids from the offered list. */
    ghost predicate Valid()
      reads this
    {
      && 1 <= step <= LastStep
      && (forall s :: 1 <= s < step ==> CanProceedAt(s, profile))
      && NoDuplicates(profile.interests)
      && (forall i :: 0 <= i < |profile.interests| ==> profile.interests[i] in InterestIds)
    }

    /** The initial state: step 1 with an empty profile. */
    constructor ()
      ensures Valid() && step == 1 && profile == EmptyProfile
    {
      step := 1;
      profile := EmptyProfile;
    }

    /** `canProceed()` on the current state: in a reachable state, whether
        every step up to the current one is answered, which on the last step
        means the whole profile is. */
    function CanProceed(): (ok: bool)
      requires Valid()
      reads this
      ensures ok <==> forall s :: 1 <= s <= step ==> CanProceedAt(s, profile)
      ensures ok && step == LastStep ==> Complete(profile)
    {
      CompleteIffEveryStep(profile);
      CanProceedAt(step, profile)
    }

    /** Picking a business type on step 1 sets that field only. */
    method SelectBusinessType(t: string)
      requires Valid() && step == 1 && t in BusinessTypes
      modifies this
      ensures Valid() && step == old(step)
      ensures profile == old(profile).(businessType := t)
      ensures CanProceed()
    {
      profile := profile.(businessType := t);
    }

    /** Picking a location on step 2 sets that field only. */
    method SelectLocation(loc: string)
      requires Valid() && step == 2 && loc in Locations
      modifies this
      ensures Valid() && step == old(step)
      ensures profile == old(profile).(location := loc)
      ensures CanProceed()
    {
      profile := profile.(location := loc);
      forall s | 1 <= s < step ensures CanProceedAt(s, profile) {
        assert CanProceedAt(s, old(profile));
      }
    }

    /** `handleInterestToggle` on step 3: only the interests change. */
    method ToggleInterest(id: string)
      requires Valid() && step == 3 && id in InterestIds
      modifies this
      ensures Valid() && step == old(step)
      ensures profile == old(profile).(interests := Toggled(old(profile).interests, id))
    {
      ToggleKeepsNoDuplicates(profile.interests, id);
      var interests := Toggled(profile.interests, id);
      forall i | 0 <= i < |interests| ensures interests[i] in InterestIds {
        var y := interests[i];
        assert y in interests;
        if y != id {
          assert y in profile.interests;
        }
      }
      profile := profile.(interests := interests);
      forall s | 1 <= s < step ensures CanProceedAt(s, profile) {
        assert CanProceedAt(s, old(profile));
      }
    }

    /** Picking a business size on step 4 sets that field only. */
    method SelectBusinessSize(size: string)
      requires Valid() && step == 4 && size in BusinessSizes
      modifies this
      ensures Valid() && step == old(step)
      ensures profile == old(profile).(businessSize := size)
      ensures CanProceed()
    {
      profile := profile.(businessSize := size);
      forall s | 1 <= s < step ensures CanProceedAt(s, profile) {
        assert CanProceedAt(s, old(profile));
      }
    }

    /** `handleNext`, through the enabled button: the next step, or on the
        last one the finished profile handed to `onComplete`, which then has
        every question answered. */
    method Next() returns (completed: Option<Profile>)
      requires Valid() && CanProceed()
      modifies this
      ensures Valid() && profile == old(profile)
      ensures old(step) < LastStep ==> step == old(step) + 1 && completed.None?
      ensures old(step) == LastStep ==> step == old(step) && completed == Some(profile)
      ensures completed.Some? ==> Complete(completed.value)
    {
      if step < LastStep {
        step := step + 1;
        completed := None;
      } else {
        completed := Some(profile);
        assert CanProceedAt(1, profile) && CanProceedAt(2, profile) && CanProceedAt(3, profile);
      }
    }
  }
}
