/** The closed enumerations the program branches on (`BaseEnum` and its
    subclasses in config.py). Each member has a label (the Python enum value,
    shown to the customer) and a name (the Python member name, which is what
    the questionnaire hands back and the preferences store). `...Dict` is
    `to_dict()`, mapping labels to names in declaration order; `...FromName`
    is `Enum[name]`. */
module Config {
  import opened Base
  import opened Dicts

  // ---------------------------------------------------------------------------
  // MealType
  // ---------------------------------------------------------------------------

  /** Meal plan types; the label is the value of the dataset's Type column
      for meals of that type (note that VEGAN is labelled "Vegetarian"). */
  datatype MealType = Keto | Organic | NonOrganic | Vegan

  /** The members in declaration order (Python's iteration order). */
  const MealTypes: seq<MealType> := [Keto, Organic, NonOrganic, Vegan]

  function MealTypeLabel(t: MealType): (r: string)
  {
    match t
    case Keto => "Keto"
    case Organic => "Organic"
    case NonOrganic => "Non-Organic"
    case Vegan => "Vegetarian"
  }

  function MealTypeName(t: MealType): string {
    match t
    case Keto => "KETO"
    case Organic => "ORGANIC"
    case NonOrganic => "NON_ORGANIC"
    case Vegan => "VEGAN"
  }

  /** The position of a member in declaration order. */
  function MealTypeIndex(t: MealType): (i: nat)
    ensures i < |MealTypes| && MealTypes[i] == t
  {
    match t case Keto => 0 case Organic => 1 case NonOrganic => 2 case Vegan => 3
  }

  /** `MealType[name]`: the member with that name; `None` where Python raises
      `KeyError`. */
  function MealTypeFromName(name: string): (r: Option<MealType>)
    ensures r.Some? ==> MealTypeName(r.value) == name
    ensures forall t: MealType :: MealTypeName(t) == name ==> r == Some(t)
  {
    if name == "KETO" then Some(Keto)
    else if name == "ORGANIC" then Some(Organic)
    else if name == "NON_ORGANIC" then Some(NonOrganic)
    else if name == "VEGAN" then Some(Vegan)
    else None
  }

  /** `MealType.to_dict()`. */
  function MealTypeDict(): Dict<string, string> {
    Comprehension(seq(|MealTypes|, i requires 0 <= i < |MealTypes| =>
                        (MealTypeLabel(MealTypes[i]), MealTypeName(MealTypes[i]))))
  }

  /** The labels of `MealType` are distinct, so `to_dict()` keeps one entry per
      member, in declaration order, mapping the member's label to its name. */
  lemma MealTypeEnum()
    ensures |MealTypeDict()| == |MealTypes| == 4
    ensures forall i :: 0 <= i < |MealTypes| ==>
              MealTypeDict()[i] == (MealTypeLabel(MealTypes[i]), MealTypeName(MealTypes[i]))
    ensures IsDict(MealTypeDict())
  {
    var pairs := seq(|MealTypes|, i requires 0 <= i < |MealTypes| =>
                   (MealTypeLabel(MealTypes[i]), MealTypeName(MealTypes[i])));
    assert IsDict(pairs);
    ComprehensionOfDistinctKeys(pairs);
  }

  /** Every value `to_dict()` holds names a member: the one at the same
      position in declaration order. */
  lemma MealTypeDictValues()
    ensures |MealTypeDict()| == |MealTypes|
    ensures forall i :: 0 <= i < |MealTypes| ==> MealTypeFromName(MealTypeDict()[i].1) == Some(MealTypes[i])
  {
    MealTypeEnum();
  }

  /** Looking a member's label up in `to_dict()` gives the member's name. */
  lemma MealTypeLookup(t: MealType)
    ensures Get(MealTypeDict(), MealTypeLabel(t)) == Some(MealTypeName(t))
    ensures Get(MealTypeDict(), "Vegetarian") == Some("VEGAN")
  {
    MealTypeEnum();
    GetAt(MealTypeDict(), MealTypeIndex(t));
  }

  // ---------------------------------------------------------------------------
  // MealObjective
  // ---------------------------------------------------------------------------

  /** Weight objectives; they choose the calorie band. */
  datatype MealObjective = WeightLoss | MuscleGain | Maintain

  /** The members in declaration order (Python's iteration order). */
  const MealObjectives: seq<MealObjective> := [WeightLoss, MuscleGain, Maintain]

  function MealObjectiveLabel(o: MealObjective): (r: string)
  {
    match o
    case WeightLoss => "Weight Loss"
    case MuscleGain => "Muscle Gain"
    case Maintain => "Maintain"
  }

  function MealObjectiveName(o: MealObjective): string {
    match o
    case WeightLoss => "WEIGHT_LOSS"
    case MuscleGain => "MUSCLE_GAIN"
    case Maintain => "MAINTAIN"
  }

  /** The position of a member in declaration order. */
  function MealObjectiveIndex(o: MealObjective): (i: nat)
    ensures i < |MealObjectives| && MealObjectives[i] == o
  {
    match o case WeightLoss => 0 case MuscleGain => 1 case Maintain => 2
  }

  /** `MealObjective[name]`: the member with that name; `None` where Python raises
      `KeyError`. */
  function MealObjectiveFromName(name: string): (r: Option<MealObjective>)
    ensures r.Some? ==> MealObjectiveName(r.value) == name
    ensures forall o: MealObjective :: MealObjectiveName(o) == name ==> r == Some(o)
  {
    if name == "WEIGHT_LOSS" then Some(WeightLoss)
    else if name == "MUSCLE_GAIN" then Some(MuscleGain)
    else if name == "MAINTAIN" then Some(Maintain)
    else None
  }

  /** `MealObjective.to_dict()`. */
  function MealObjectiveDict(): Dict<string, string> {
    Comprehension(seq(|MealObjectives|, i requires 0 <= i < |MealObjectives| =>
                        (MealObjectiveLabel(MealObjectives[i]), MealObjectiveName(MealObjectives[i]))))
  }

  /** The labels of `MealObjective` are distinct, so `to_dict()` keeps one entry per
      member, in declaration order, mapping the member's label to its name. */
  lemma MealObjectiveEnum()
    ensures |MealObjectiveDict()| == |MealObjectives| == 3
    ensures forall i :: 0 <= i < |MealObjectives| ==>
              MealObjectiveDict()[i] == (MealObjectiveLabel(MealObjectives[i]), MealObjectiveName(MealObjectives[i]))
    ensures IsDict(MealObjectiveDict())
  {
    var pairs := seq(|MealObjectives|, i requires 0 <= i < |MealObjectives| =>
                   (MealObjectiveLabel(MealObjectives[i]), MealObjectiveName(MealObjectives[i])));
    assert IsDict(pairs);
    ComprehensionOfDistinctKeys(pairs);
  }

  /** Every value `to_dict()` holds names a member: the one at the same
      position in declaration order. */
  lemma MealObjectiveDictValues()
    ensures |MealObjectiveDict()| == |MealObjectives|
    ensures forall i :: 0 <= i < |MealObjectives| ==> MealObjectiveFromName(MealObjectiveDict()[i].1) == Some(MealObjectives[i])
  {
    MealObjectiveEnum();
  }

  /** Looking a member's label up in `to_dict()` gives the member's name. */
  lemma MealObjectiveLookup(o: MealObjective)
    ensures Get(MealObjectiveDict(), MealObjectiveLabel(o)) == Some(MealObjectiveName(o))
  {
    MealObjectiveEnum();
    GetAt(MealObjectiveDict(), MealObjectiveIndex(o));
  }

  // ---------------------------------------------------------------------------
  // MealFrequency
  // ---------------------------------------------------------------------------

  /** Meals per day; they choose the times of day of the schedule. */
  datatype MealFrequency = OneMealADay | TwoMealsADay | ThreeMealsADay

  /** The members in declaration order (Python's iteration order). */
  const MealFrequencies: seq<MealFrequency> := [OneMealADay, TwoMealsADay, ThreeMealsADay]

  function MealFrequencyLabel(f: MealFrequency): (r: string)
  {
    match f
    case OneMealADay => "One Meal A Day"
    case TwoMealsADay => "Two Meals A Day"
    case ThreeMealsADay => "Three Meals A Day"
  }

  function MealFrequencyName(f: MealFrequency): string {
    match f
    case OneMealADay => "OMAD"
    case TwoMealsADay => "TMAD"
    case ThreeMealsADay => "THMAD"
  }

  /** The position of a member in declaration order. */
  function MealFrequencyIndex(f: MealFrequency): (i: nat)
    ensures i < |MealFrequencies| && MealFrequencies[i] == f
  {
    match f case OneMealADay => 0 case TwoMealsADay => 1 case ThreeMealsADay => 2
  }

  /** `MealFrequency[name]`: the member with that name; `None` where Python raises
      `KeyError`. */
  function MealFrequencyFromName(name: string): (r: Option<MealFrequency>)
    ensures r.Some? ==> MealFrequencyName(r.value) == name
    ensures forall f: MealFrequency :: MealFrequencyName(f) == name ==> r == Some(f)
  {
    if name == "OMAD" then Some(OneMealADay)
    else if name == "TMAD" then Some(TwoMealsADay)
    else if name == "THMAD" then Some(ThreeMealsADay)
    else None
  }

  /** `MealFrequency.to_dict()`. */
  function MealFrequencyDict(): Dict<string, string> {
    Comprehension(seq(|MealFrequencies|, i requires 0 <= i < |MealFrequencies| =>
                        (MealFrequencyLabel(MealFrequencies[i]), MealFrequencyName(MealFrequencies[i]))))
  }

  /** The labels of `MealFrequency` are distinct, so `to_dict()` keeps one entry per
      member, in declaration order, mapping the member's label to its name. */
  lemma MealFrequencyEnum()
    ensures |MealFrequencyDict()| == |MealFrequencies| == 3
    ensures forall i :: 0 <= i < |MealFrequencies| ==>
              MealFrequencyDict()[i] == (MealFrequencyLabel(MealFrequencies[i]), MealFrequencyName(MealFrequencies[i]))
    ensures IsDict(MealFrequencyDict())
  {
    var pairs := seq(|MealFrequencies|, i requires 0 <= i < |MealFrequencies| =>
                   (MealFrequencyLabel(MealFrequencies[i]), MealFrequencyName(MealFrequencies[i])));
    assert IsDict(pairs);
    ComprehensionOfDistinctKeys(pairs);
  }

  /** Every value `to_dict()` holds names a member: the one at the same
      position in declaration order. */
  lemma MealFrequencyDictValues()
    ensures |MealFrequencyDict()| == |MealFrequencies|
    ensures forall i :: 0 <= i < |MealFrequencies| ==> MealFrequencyFromName(MealFrequencyDict()[i].1) == Some(MealFrequencies[i])
  {
    MealFrequencyEnum();
  }

  /** Looking a member's label up in `to_dict()` gives the member's name. */
  lemma MealFrequencyLookup(f: MealFrequency)
    ensures Get(MealFrequencyDict(), MealFrequencyLabel(f)) == Some(MealFrequencyName(f))
  {
    MealFrequencyEnum();
    GetAt(MealFrequencyDict(), MealFrequencyIndex(f));
  }

  // ---------------------------------------------------------------------------
  // Gender
  // ---------------------------------------------------------------------------

  /** The genders a profile may record. */
  datatype Gender = Male | Female

  /** The members in declaration order (Python's iteration order). */
  const Genders: seq<Gender> := [Male, Female]

  function GenderLabel(g: Gender): (r: string)
  {
    match g
    case Male => "Male"
    case Female => "Female"
  }

  function GenderName(g: Gender): string {
    match g
    case Male => "MALE"
    case Female => "FEMALE"
  }

  /** The position of a member in declaration order. */
  function GenderIndex(g: Gender): (i: nat)
    ensures i < |Genders| && Genders[i] == g
  {
    match g case Male => 0 case Female => 1
  }

  /** `Gender[name]`: the member with that name; `None` where Python raises
      `KeyError`. */
  function GenderFromName(name: string): (r: Option<Gender>)
    ensures r.Some? ==> GenderName(r.value) == name
    ensures forall g: Gender :: GenderName(g) == name ==> r == Some(g)
  {
    if name == "MALE" then Some(Male)
    else if name == "FEMALE" then Some(Female)
    else None
  }

  /** `Gender.to_dict()`. */
  function GenderDict(): Dict<string, string> {
    Comprehension(seq(|Genders|, i requires 0 <= i < |Genders| =>
                        (GenderLabel(Genders[i]), GenderName(Genders[i]))))
  }

  /** The labels of `Gender` are distinct, so `to_dict()` keeps one entry per
      member, in declaration order, mapping the member's label to its name. */
  lemma GenderEnum()
    ensures |GenderDict()| == |Genders| == 2
    ensures forall i :: 0 <= i < |Genders| ==>
              GenderDict()[i] == (GenderLabel(Genders[i]), GenderName(Genders[i]))
    ensures IsDict(GenderDict())
  {
    var pairs := seq(|Genders|, i requires 0 <= i < |Genders| =>
                   (GenderLabel(Genders[i]), GenderName(Genders[i])));
    assert IsDict(pairs);
    ComprehensionOfDistinctKeys(pairs);
  }

  /** Every value `to_dict()` holds names a member: the one at the same
      position in declaration order. */
  lemma GenderDictValues()
    ensures |GenderDict()| == |Genders|
    ensures forall i :: 0 <= i < |Genders| ==> GenderFromName(GenderDict()[i].1) == Some(Genders[i])
  {
    GenderEnum();
  }

  /** Looking a member's label up in `to_dict()` gives the member's name. */
  lemma GenderLookup(g: Gender)
    ensures Get(GenderDict(), GenderLabel(g)) == Some(GenderName(g))
  {
    GenderEnum();
    GetAt(GenderDict(), GenderIndex(g));
  }

  /** `list(Gender.__members__)`: the member names, in declaration order. */
  function GenderNames(): (names: seq<string>)
    ensures forall g: Gender :: GenderName(g) in names
    ensures forall s :: s in names ==> GenderFromName(s).Some?
  {
    [GenderName(Male), GenderName(Female)]
  }

  // ---------------------------------------------------------------------------
  // Allergen
  // ---------------------------------------------------------------------------

  /** Allergens; the label is the Main Ingredient value a meal must not have,
      except "Meat", which stands for the Chicken, Beef and Pork ingredients
      together. */
  datatype Allergen = Chicken | Beef | Pork | Seafood | Meat

  /** The members in declaration order (Python's iteration order). */
  const Allergens: seq<Allergen> := [Chicken, Beef, Pork, Seafood, Meat]

  function AllergenLabel(a: Allergen): (r: string)
    ensures r == "Meat" <==> a == Meat
  {
    match a
    case Chicken => "Chicken"
    case Beef => "Beef"
    case Pork => "Pork"
    case Seafood => "Seafood"
    case Meat => "Meat"
  }

  function AllergenName(a: Allergen): string {
    match a
    case Chicken => "CHICKEN"
    case Beef => "BEEF"
    case Pork => "PORK"
    case Seafood => "SEAFOOD"
    case Meat => "MEAT"
  }

  /** The position of a member in declaration order. */
  function AllergenIndex(a: Allergen): (i: nat)
    ensures i < |Allergens| && Allergens[i] == a
  {
    match a case Chicken => 0 case Beef => 1 case Pork => 2 case Seafood => 3 case Meat => 4
  }

  /** `Allergen[name]`: the member with that name; `None` where Python raises
      `KeyError`. */
  function AllergenFromName(name: string): (r: Option<Allergen>)
    ensures r.Some? ==> AllergenName(r.value) == name
    ensures forall a: Allergen :: AllergenName(a) == name ==> r == Some(a)
  {
    if name == "CHICKEN" then Some(Chicken)
    else if name == "BEEF" then Some(Beef)
    else if name == "PORK" then Some(Pork)
    else if name == "SEAFOOD" then Some(Seafood)
    else if name == "MEAT" then Some(Meat)
    else None
  }

  /** `Allergen.to_dict()`. */
  function AllergenDict(): Dict<string, string> {
    Comprehension(seq(|Allergens|, i requires 0 <= i < |Allergens| =>
                        (AllergenLabel(Allergens[i]), AllergenName(Allergens[i]))))
  }

  /** The labels of `Allergen` are distinct, so `to_dict()` keeps one entry per
      member, in declaration order, mapping the member's label to its name. */
  lemma AllergenEnum()
    ensures |AllergenDict()| == |Allergens| == 5
    ensures forall i :: 0 <= i < |Allergens| ==>
              AllergenDict()[i] == (AllergenLabel(Allergens[i]), AllergenName(Allergens[i]))
    ensures IsDict(AllergenDict())
  {
    var pairs := seq(|Allergens|, i requires 0 <= i < |Allergens| =>
                   (AllergenLabel(Allergens[i]), AllergenName(Allergens[i])));
    assert IsDict(pairs);
    ComprehensionOfDistinctKeys(pairs);
  }

  /** Every value `to_dict()` holds names a member: the one at the same
      position in declaration order. */
  lemma AllergenDictValues()
    ensures |AllergenDict()| == |Allergens|
    ensures forall i :: 0 <= i < |Allergens| ==> AllergenFromName(AllergenDict()[i].1) == Some(Allergens[i])
  {
    AllergenEnum();
  }

  /** Looking a member's label up in `to_dict()` gives the member's name. */
  lemma AllergenLookup(a: Allergen)
    ensures Get(AllergenDict(), AllergenLabel(a)) == Some(AllergenName(a))
  {
    AllergenEnum();
    GetAt(AllergenDict(), AllergenIndex(a));
  }
}
