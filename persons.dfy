/** The person record (Pessoa): an immutable name and birth date.
    The system clock of the source is replaced by a `today` parameter. */
module Persons {
  import opened Text
  import opened Dates
  import opened Results

  /** Both fields are final in the source; a datatype value cannot change either. */
  datatype Person = Person(name: string, birthDate: LocalDate) {

    /** What construction guarantees of the stored name. */
    predicate Valid() {
      name != [] && IsTrimmed(name)
    }

    /** getIdade: whole years from the birth date to `today`. */
    function Age(today: LocalDate): (r: int)
      ensures !birthDate.IsAfter(today) ==> r >= 0
      ensures !birthDate.IsAfter(today) ==>
        r == today.year - birthDate.year - (if AnniversaryPending(birthDate, today) then 1 else 0)
    {
      YearsBetween(birthDate, today)
    }

    /** equals: same name and same birth date, which is value equality of
        the record. */
    predicate Equals(other: Person)
      ensures Equals(other) <==> this == other
    {
      name == other.name && birthDate == other.birthDate
    }
  }

  /** The constructor: rejects a blank name, then a birth date after `today`;
      otherwise stores the trimmed name and the birth date. */
  function NewPerson(name: string, birthDate: LocalDate, today: LocalDate): (r: Result<Person>)
    ensures r.Err? <==> IsBlank(name) || birthDate.IsAfter(today)
    ensures IsBlank(name) ==> r == Err(BlankName)
    ensures !IsBlank(name) && birthDate.IsAfter(today) ==> r == Err(FutureBirthDate)
    ensures r.Ok? ==> r.value.Valid() && r.value.name == Trim(name) && r.value.birthDate == birthDate
  {
    if IsBlank(name) then Err(BlankName)
    else if birthDate.IsAfter(today) then Err(FutureBirthDate)
    else Ok(Person(Trim(name), birthDate))
  }

  /** A person constructed against `today` has a non-negative age on that day. */
  lemma AgeOnConstructionDay(name: string, birthDate: LocalDate, today: LocalDate)
    requires NewPerson(name, birthDate, today).Ok?
    ensures NewPerson(name, birthDate, today).value.Age(today) >= 0
  {
  }

  /** The age never decreases as the reference date moves forward. */
  lemma AgeMonotone(p: Person, today1: LocalDate, today2: LocalDate)
    requires !today1.IsAfter(today2)
    ensures p.Age(today1) <= p.Age(today2)
  {
    YearsBetweenMonotone(p.birthDate, today1, today2);
  }

  /** equals is an equivalence: reflexive, symmetric and transitive. */
  lemma EqualsIsEquivalence(p: Person, q: Person, o: Person)
    ensures p.Equals(p)
    ensures p.Equals(q) ==> q.Equals(p)
    ensures p.Equals(q) && q.Equals(o) ==> p.Equals(o)
  {
  }
}
