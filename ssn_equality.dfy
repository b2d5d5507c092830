/** Equality of SSNs: two numbers are equal exactly when their packed values are,
    and the hash code is the packed value itself. */
module SsnEquality {
  import opened Wrappers
  import opened Ssn

  /** An argument of type `object?`: an SSN, a value of some other type, or `null`. */
  datatype Object = Number(ssn: SocialSecurityNumber) | OtherValue | Null

  /** `Equals(SocialSecurityNumber)`: the packed values are equal, which makes
      it sameness of numbers. */
  function Equals(self: SocialSecurityNumber, other: SocialSecurityNumber): (r: bool)
    ensures r <==> self == other
  {
    self.value == other.value
  }

  /** `Equals(object?)`: the argument is an SSN and equal to this one; `null` and
      values of other types are never equal. */
  function EqualsObject(self: SocialSecurityNumber, obj: Object): (r: bool)
    ensures r <==> obj == Number(self)
  {
    obj.Number? && Equals(self, obj.ssn)
  }

  /** `operator ==`: sameness of numbers. */
  function OpEquality(left: SocialSecurityNumber, right: SocialSecurityNumber): (r: bool)
    ensures r <==> left == right
  {
    Equals(left, right)
  }

  /** `operator !=`: the negation of `==`. */
  function OpInequality(left: SocialSecurityNumber, right: SocialSecurityNumber): (r: bool)
    ensures r <==> !OpEquality(left, right)
    ensures r <==> left != right
  {
    !Equals(left, right)
  }

  /** `GetHashCode`: an `int`'s hash code is the `int` itself, so every number
      equal to this one has this hash code. */
  function GetHashCode(self: SocialSecurityNumber): (r: Int32)
    ensures forall other | Equals(self, other) :: other.value == r
  {
    self.value
  }

  /** Equality is sameness of numbers, so it is reflexive, symmetric and
      transitive, and the two operators are each other's negation. */
  lemma EqualsIsIdentity(a: SocialSecurityNumber, b: SocialSecurityNumber)
    ensures Equals(a, b) <==> a == b
    ensures OpEquality(a, b) == Equals(b, a)
    ensures OpInequality(a, b) == !OpEquality(a, b)
  {
  }

  /** Two numbers are equal exactly when all three parts are. */
  lemma EqualsIffSameParts(a: SocialSecurityNumber, b: SocialSecurityNumber)
    ensures Equals(a, b) <==>
      a.AreaNumber() == b.AreaNumber() && a.GroupNumber() == b.GroupNumber()
      && a.SerialNumber() == b.SerialNumber()
  {
    if a.AreaNumber() == b.AreaNumber() && a.GroupNumber() == b.GroupNumber()
      && a.SerialNumber() == b.SerialNumber() {
      PartsDetermineNumber(a, b);
    }
  }

  /** Equal numbers have equal hash codes, and `Equals(object?)` agrees with
      `Equals` on SSNs and is false for anything else. */
  lemma HashAndObjectEquality(a: SocialSecurityNumber, b: SocialSecurityNumber, obj: Object)
    ensures Equals(a, b) ==> GetHashCode(a) == GetHashCode(b)
    ensures EqualsObject(a, Number(b)) == Equals(a, b)
    ensures !obj.Number? ==> !EqualsObject(a, obj)
  {
  }
}
