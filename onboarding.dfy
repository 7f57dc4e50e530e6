/**
 * The onboarding wizard: a step counter bounded by 1 and 4 and the form
 * record its inputs edit, with health conditions checked and unchecked in a list.
 */
module Onboarding {
  import opened Unique

  const TOTAL_STEPS := 4

  /** One answer per input, every one of them text except the list of conditions. */
  datatype FormData = FormData(
    age: string, gender: string, height: string, weight: string,
    healthConditions: seq<string>,
    activityLevel: string, sleepHours: string, smoking: string,
    contactName: string, relationship: string, phoneNumber: string)

  const EMPTY_FORM := FormData("", "", "", "", [], "", "", "", "", "", "")

  /** The text inputs `handleInputChange` is called with. */
  datatype Field =
    | Age | Gender | Height | Weight
    | ActivityLevel | SleepHours | Smoking
    | ContactName | Relationship | PhoneNumber

  function FieldValue(d: FormData, f: Field): string {
    match f
    case Age => d.age
    case Gender => d.gender
    case Height => d.height
    case Weight => d.weight
    case ActivityLevel => d.activityLevel
    case SleepHours => d.sleepHours
    case Smoking => d.smoking
    case ContactName => d.contactName
    case Relationship => d.relationship
    case PhoneNumber => d.phoneNumber
  }

  /** `{ ...prev, [field]: value }`: the one field takes the value and nothing else changes. */
  function WithField(d: FormData, f: Field, value: string): (r: FormData)
    ensures FieldValue(r, f) == value
    ensures forall g :: g != f ==> FieldValue(r, g) == FieldValue(d, g)
    ensures r.healthConditions == d.healthConditions
  {
    match f
    case Age => d.(age := value)
    case Gender => d.(gender := value)
    case Height => d.(height := value)
    case Weight => d.(weight := value)
    case ActivityLevel => d.(activityLevel := value)
    case SleepHours => d.(sleepHours := value)
    case Smoking => d.(smoking := value)
    case ContactName => d.(contactName := value)
    case Relationship => d.(relationship := value)
    case PhoneNumber => d.(phoneNumber := value)
  }

  /** `handleHealthConditionChange`'s new list: appended when checked, every occurrence filtered out when not. */
  function Conditions(list: seq<string>, condition: string, checked: bool): (r: seq<string>)
    ensures checked ==> r == list + [condition]
    ensures !checked ==> condition !in r && multiset(r) == multiset(list)[condition := 0]
  {
    WithoutMultiset(list, condition);
    if checked then list + [condition] else Without(list, condition)
  }

  /** Unchecking keeps the other conditions in their order: filtering commutes with any split of the list. */
  lemma UncheckKeepsOrder(before: seq<string>, after: seq<string>, condition: string)
    requires condition !in before && condition !in after
    ensures Conditions(before + [condition] + after, condition, false) == before + after
  {
    var w1 := Without(before + [condition], condition);
    WithoutAppend(before, [condition], condition);
    WithoutAbsent(before, condition);
    assert Without([condition], condition) == [];
    assert w1 == before;
    WithoutAppend(before + [condition], after, condition);
    WithoutAbsent(after, condition);
    assert Without(before + [condition] + after, condition) == before + after;
  }

  /** Checking then unchecking a condition the list did not hold restores the list. */
  lemma CheckThenUncheck(list: seq<string>, condition: string)
    requires condition !in list
    ensures Conditions(Conditions(list, condition, true), condition, false) == list
  {
    WithoutAppend(list, [condition], condition);
    WithoutAbsent(list, condition);
    assert Without([condition], condition) == [];
  }

  /** `nextStep`'s new step. */
  function Next(step: int): (r: int)
    ensures r == step + 1 <==> step < TOTAL_STEPS
    ensures r == step <==> step >= TOTAL_STEPS
    ensures 1 <= step <= TOTAL_STEPS ==> 1 <= r <= TOTAL_STEPS
  {
    if step < TOTAL_STEPS then step + 1 else step
  }

  /** `previousStep`'s new step. */
  function Previous(step: int): (r: int)
    ensures r == step - 1 <==> step > 1
    ensures r == step <==> step <= 1
    ensures 1 <= step <= TOTAL_STEPS ==> 1 <= r <= TOTAL_STEPS
  {
    if step > 1 then step - 1 else step
  }

  /** Going back after going forward from a step before the last returns to it. */
  lemma PreviousUndoesNext(step: int)
    requires 1 <= step < TOTAL_STEPS
    ensures Previous(Next(step)) == step
  {
  }

  /**
   * `(currentStep / totalSteps) * 100`: exact for the four steps, 25 apiece,
   * and 100 only at the last.
   */
  function Progress(step: int): (p: int)
    requires 1 <= step <= TOTAL_STEPS
    ensures p == step * 25
    ensures p == 100 <==> step == TOTAL_STEPS
    ensures 25 <= p <= 100
  {
    step * 100 / TOTAL_STEPS
  }

  class Wizard {
    var currentStep: int
    var formData: FormData

    ghost predicate Valid()
      reads this
    {
      1 <= currentStep <= TOTAL_STEPS
    }

    constructor ()
      ensures Valid() && currentStep == 1 && formData == EMPTY_FORM
    {
      currentStep := 1;
      formData := EMPTY_FORM;
    }

    method NextStep()
      requires Valid()
      modifies this
      ensures Valid()
      ensures currentStep == Next(old(currentStep)) && formData == old(formData)
    {
      if currentStep < TOTAL_STEPS {
        currentStep := currentStep + 1;
      }
    }

    method PreviousStep()
      requires Valid()
      modifies this
      ensures Valid()
      ensures currentStep == Previous(old(currentStep)) && formData == old(formData)
    {
      if currentStep > 1 {
        currentStep := currentStep - 1;
      }
    }

    method HandleInputChange(field: Field, value: string)
      requires Valid()
      modifies this
      ensures Valid()
      ensures formData == WithField(old(formData), field, value) && currentStep == old(currentStep)
    {
      formData := WithField(formData, field, value);
    }

    method HandleHealthConditionChange(condition: string, checked: bool)
      requires Valid()
      modifies this
      ensures Valid()
      ensures formData == old(formData).(healthConditions := Conditions(old(formData.healthConditions), condition, checked))
      ensures currentStep == old(currentStep)
    {
      formData := formData.(healthConditions := Conditions(formData.healthConditions, condition, checked));
    }
  }
}
