/**
 * What reflection over the project assembly yields, taken as input: one
 * record per type with the traits the style decision reads and the
 * full names of the types its public members mention.
 */
module Reflection {
  import opened Wrappers

  /** `type.BaseType`: absent (null), `System.MulticastDelegate`, or anything else. */
  datatype BaseType = NoBase | MulticastDelegateBase | OtherBase

  datatype Traits = Traits(
    isValueType: bool,
    isInterface: bool,
    baseType: BaseType,
    isClass: bool,
    subclassOfMonoBehaviour: bool,
    subclassOfScriptableObject: bool,
    subclassOfUnityObject: bool)

  /**
   * A reflected type: short name, full name (null for some generic
   * constructs), traits, and the full names found by `GetMembers` in
   * member order (null entries included).
   */
  datatype TypeInfo = TypeInfo(
    name: string,
    fullName: Option<string>,
    traits: Traits,
    refs: seq<Option<string>>)
}
