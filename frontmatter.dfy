/**
 * The front matter of a note, as the plugin reads and toggles it.
 *
 * Only one thing about a front-matter value matters to the plugin: whether it
 * is a JavaScript boolean. Everything else (text, numbers, lists, a missing
 * entry) is treated alike.
 */
module FrontMatter {

  /** A front-matter value: a boolean, or anything that is not one. */
  datatype Value = Bool(b: bool) | Other

  /** The front matter of one note: property name to value. */
  type Properties = map<string, Value>

  /** Whether `name` holds a boolean (`typeof value === "boolean"`). */
  predicate IsBool(fm: Properties, name: string)
  {
    name in fm && fm[name].Bool?
  }

  /**
   * The value `getFileProperty` resolves with: the stored boolean, and
   * `false` for a missing or non-boolean property.
   */
  function PropertyValue(fm: Properties, name: string): (r: bool)
    ensures r <==> name in fm && fm[name] == Bool(true)
    ensures !IsBool(fm, name) ==> !r
  {
    if IsBool(fm, name) then fm[name].b else false
  }

  /** The front matter after a toggle, and the value the toggle resolves with. */
  datatype Toggle = Toggle(fm: Properties, result: bool)

  /**
   * What `toggleFileProperty` does: a boolean property is negated and its new
   * value returned; anything else is left as it is and `false` returned.
   */
  function Toggled(fm: Properties, name: string): (t: Toggle)
    ensures t.fm.Keys == fm.Keys
    ensures forall k | k in fm && k != name :: t.fm[k] == fm[k]
    ensures IsBool(fm, name) ==> IsBool(t.fm, name) && t.fm[name].b != fm[name].b
    ensures !IsBool(fm, name) ==> t.fm == fm && !t.result
    ensures t.result == PropertyValue(t.fm, name)
  {
    if IsBool(fm, name) then
      var propertyValue := fm[name].b;
      Toggle(fm[name := Bool(!propertyValue)], !propertyValue)
    else
      Toggle(fm, false)
  }

  /** On a boolean property the toggle resolves with the negation of the read. */
  lemma ToggleNegatesRead(fm: Properties, name: string)
    requires IsBool(fm, name)
    ensures Toggled(fm, name).result == !PropertyValue(fm, name)
  {
  }

  /** Toggling twice restores the front matter. */
  lemma ToggleTwice(fm: Properties, name: string)
    ensures Toggled(Toggled(fm, name).fm, name).fm == fm
  {
    if IsBool(fm, name) {
      assert Toggled(Toggled(fm, name).fm, name).fm == fm[name := fm[name]];
    }
  }

  /**
   * Two toggles in a row resolve with opposite values exactly when the
   * property is a boolean; otherwise both resolve with `false`.
   */
  lemma ToggleAlternates(fm: Properties, name: string)
    ensures var first := Toggled(fm, name);
            (first.result != Toggled(first.fm, name).result) <==> IsBool(fm, name)
  {
  }

  /** A toggle of one property leaves the read of every other property alone. */
  lemma ToggleLeavesOthers(fm: Properties, name: string, other: string)
    requires other != name
    ensures PropertyValue(Toggled(fm, name).fm, other) == PropertyValue(fm, other)
  {
  }

  /**
   * A note file. Its front matter is the state that `processFrontMatter`
   * reads and writes back.
   */
  class File {
    var frontmatter: Properties

    constructor (frontmatter: Properties)
      ensures this.frontmatter == frontmatter
    {
      this.frontmatter := frontmatter;
    }

    /** `getFileProperty`: reads a boolean property, `false` when it is not one. */
    method GetFileProperty(propertyName: string) returns (r: bool)
      ensures r <==> propertyName in frontmatter && frontmatter[propertyName] == Bool(true)
    {
      if propertyName in frontmatter && frontmatter[propertyName].Bool? {
        r := frontmatter[propertyName].b;
      } else {
        r := false;
      }
    }

    /** `toggleFileProperty`: negates a boolean property and returns its new value. */
    method ToggleFileProperty(propertyName: string) returns (r: bool)
      modifies this
      ensures frontmatter == Toggled(old(frontmatter), propertyName).fm
      ensures r == Toggled(old(frontmatter), propertyName).result
    {
      if propertyName in frontmatter && frontmatter[propertyName].Bool? {
        var propertyValue := frontmatter[propertyName].b;
        frontmatter := frontmatter[propertyName := Bool(!propertyValue)];
        r := !propertyValue;
      } else {
        r := false;
      }
    }
  }
}
