/**
 * Toggle buttons: what `createButton` builds from a block's text, what a
 * click on a button does, and how the reading-view post-processor replaces
 * the `togglebutton` code blocks of a page.
 */
module Buttons {
  import opened Wrappers
  import opened Text
  import opened Args
  import opened FrontMatter

  /** The class every toggle button carries. */
  const ButtonClass := "tag-toggle-button"
  /** The class that makes a button look active. */
  const ActiveClass := "mod-cta"
  /** The text shown instead of a button when there is no active file. */
  const NullFileMessage := "togglebutton error: active file is null"

  // ------------------------------------------------------------ the plan

  /**
   * What `createButton` makes of a block's text: it throws (the text does not
   * parse), it shows the error span, or it builds a button with an optional
   * label, an optional `id` attribute and an optional property whose click
   * handler toggles it.
   */
  datatype Plan =
    | Throws
    | ErrorSpan(text: string)
    | ButtonPlan(caption: Option<string>, id: Option<string>, property: Option<string>)

  /** `args[key]`, or `undefined` (`None`) when the key is absent. */
  function Lookup(args: map<string, string>, key: string): (r: Option<string>)
    ensures r.Some? <==> key in args
    ensures r.Some? ==> r.value == args[key]
  {
    if key in args then Some(args[key]) else None
  }

  /** `args[key]` where it is truthy: present and not the empty string. */
  function WhenTruthy(args: map<string, string>, key: string): (r: Option<string>)
    ensures r.Some? <==> key in args && args[key] != ""
    ensures r.Some? ==> r.value == args[key]
  {
    if key in args && args[key] != "" then Some(args[key]) else None
  }

  /**
   * The plan for `createButton(source, ...)`, given whether there is an
   * active file. Without one nothing is parsed; with one the text is parsed
   * and a parse failure propagates.
   */
  function PlanFor(source: string, hasFile: bool): (p: Plan)
    ensures !hasFile ==> p == ErrorSpan(NullFileMessage)
    ensures hasFile ==> (p.Throws? <==> ParseArgs(source).None?)
    ensures !p.Throws? ==> p.ErrorSpan? != hasFile
    ensures p.ButtonPlan? ==> p.id.Some? ==> p.id.value != ""
    ensures p.ButtonPlan? ==> p.property.Some? ==> p.property.value != ""
  {
    if !hasFile then
      ErrorSpan(NullFileMessage)
    else
      match ParseArgs(source)
      case None => Throws
      case Some(args) => ButtonPlan(Lookup(args, "label"), WhenTruthy(args, "id"), WhenTruthy(args, "property"))
  }

  /**
   * A `property` line with a non-empty value, not overridden by a later
   * `property` line, gives the button a handler for that property; with an
   * empty value the button gets none.
   */
  lemma PropertyLineGivesHandler(source: string, i: nat)
    requires ParseArgs(source).Some? && i < |Lines(source)|
    requires KeyOf(Lines(source)[i]) == "property"
    requires forall j | i < j < |Lines(source)| :: KeyOf(Lines(source)[j]) != "property"
    ensures PlanFor(source, true).ButtonPlan?
    ensures PlanFor(source, true).property.Some? <==> ValueOf(Lines(source)[i]) != ""
    ensures PlanFor(source, true).property.Some? ==>
              PlanFor(source, true).property.value == ValueOf(Lines(source)[i])
  {
    LastLineWins(source, i);
  }

  /**
   * In the reading view, a tagged block whose first line is the tag alone
   * (up to white space) throws; otherwise its first line does not contribute a label, id or
   * property.
   */
  lemma TaggedBlockPlan(text: string)
    requires StartsWith(Trim(text), Tag)
    ensures Trim(Lines(text)[0]) == Tag ==> PlanFor(text, true) == Throws
    ensures KeyOf(Lines(text)[0]) !in {"label", "property", "id"}
  {
    TaggedFirstKey(text);
    if Trim(Lines(text)[0]) == Tag {
      TagLineAloneFails(text);
    }
  }

  // ------------------------------------------------------------ the button

  /**
   * A toggle button. Its label, id, property and file are fixed when it is
   * made; its class list changes when it is clicked.
   */
  class Button {
    const caption: Option<string>
    const id: Option<string>
    /** The property the click handler toggles; `None` when there is no handler. */
    const handler: Option<string>
    /** The file that was active when the button was made. */
    const file: File
    var classes: set<string>

    constructor (caption: Option<string>, id: Option<string>, handler: Option<string>, file: File)
      ensures this.caption == caption && this.id == id && this.handler == handler && this.file == file
      ensures classes == {ButtonClass}
    {
      this.caption := caption;
      this.id := id;
      this.handler := handler;
      this.file := file;
      classes := {ButtonClass};
    }

    /** Whether the button looks active. */
    predicate Active()
      reads this
    {
      ActiveClass in classes
    }

    /**
     * A click. With a handler, the property is toggled in the captured file
     * and the button is made active exactly when the toggle resolves with
     * `true`; without one nothing happens.
     */
    method Click()
      modifies this, file
      ensures handler.None? ==> classes == old(classes) && file.frontmatter == old(file.frontmatter)
      ensures handler.Some? ==> file.frontmatter == Toggled(old(file.frontmatter), handler.value).fm
      ensures handler.Some? ==> (Active() <==> Toggled(old(file.frontmatter), handler.value).result)
      ensures classes - {ActiveClass} == old(classes) - {ActiveClass}
      ensures handler.Some? ==> (Active() <==> PropertyValue(file.frontmatter, handler.value))
    {
      if handler.Some? {
        var newPropertyValue := file.ToggleFileProperty(handler.value);
        if newPropertyValue {
          classes := classes + {ActiveClass};
        } else {
          classes := classes - {ActiveClass};
        }
      }
    }
  }

  /**
   * Two clicks on a button restore the file's front matter, and the button
   * ends active exactly when the property is a boolean `true`.
   */
  method ClickTwice(button: Button)
    modifies button, button.file
    ensures button.file.frontmatter == old(button.file.frontmatter)
    ensures button.handler.Some? ==>
              (button.Active() <==> PropertyValue(old(button.file.frontmatter), button.handler.value))
  {
    ToggleTwice(button.file.frontmatter, if button.handler.Some? then button.handler.value else "");
    button.Click();
    button.Click();
  }

  /**
   * Two buttons bound to the same property of the same file: a click on one
   * changes the stored value but not the look of the other, so the other's
   * look can disagree with the file afterwards.
   */
  method ClickLeavesOtherButton(clicked: Button, other: Button)
    requires clicked != other && clicked.file == other.file
    requires clicked.handler.Some? && other.handler == clicked.handler
    requires IsBool(clicked.file.frontmatter, clicked.handler.value)
    modifies clicked, clicked.file
    ensures other.classes == old(other.classes)
    ensures PropertyValue(other.file.frontmatter, other.handler.value) !=
              old(PropertyValue(other.file.frontmatter, other.handler.value))
  {
    clicked.Click();
  }

  // ------------------------------------------------------------ createButton

  /** What `createButton` returns: nothing (it threw), the error span, or a button. */
  datatype Created = Threw | Span(text: string) | Made(button: Button)

  /** `c` is what `plan` describes, built over `file`, and not yet clicked. */
  predicate Realizes(c: Created, plan: Plan, file: File?)
    reads if c.Made? then {c.button} else {}
  {
    match plan
    case Throws => c.Threw?
    case ErrorSpan(text) => c == Span(text)
    case ButtonPlan(caption, id, property) =>
      && c.Made?
      && c.button.caption == caption && c.button.id == id && c.button.handler == property
      && c.button.file == file
      && c.button.classes == {ButtonClass}
  }

  /**
   * `createButton`: the error span when there is no active file; otherwise
   * the block is parsed (a failure propagates) and a fresh, inactive button
   * is built over the active file.
   */
  method CreateButton(args: string, activeFile: File?) returns (c: Created)
    ensures Realizes(c, PlanFor(args, activeFile != null), activeFile)
    ensures c.Made? ==> fresh(c.button)
  {
    var file := activeFile;
    if file != null {
      var argsObject := GetArgs(args);
      if argsObject.None? {
        return Threw;
      }
      var propertyName := WhenTruthy(argsObject.value, "property");
      var button := new Button(Lookup(argsObject.value, "label"), WhenTruthy(argsObject.value, "id"),
                               propertyName, file);
      return Made(button);
    }
    return Span(NullFileMessage);
  }

  // ------------------------------------------------------------ reading view

  /** A `<code>` element of the page, or what replaced it. */
  datatype Node = Code(innerText: string) | Replaced(replacement: Created)

  /** A code element the reading-view processor turns into a button. */
  predicate IsToggleBlock(n: Node)
  {
    n.Code? && StartsWith(Trim(n.innerText), Tag)
  }

  /** A toggle block whose text does not parse although there is a file. */
  predicate Throwing(n: Node, hasFile: bool)
  {
    IsToggleBlock(n) && PlanFor(Trim(n.innerText), hasFile).Throws?
  }

  /**
   * `after` is what the reading-view processor leaves in place of `before`:
   * for a toggle block, what `createButton` makes of its trimmed text; any
   * other element stays as it is.
   */
  predicate Processed(after: Node, before: Node, file: File?)
    reads if after.Replaced? && after.replacement.Made? then {after.replacement.button} else {}
  {
    if IsToggleBlock(before) then
      after.Replaced? && Realizes(after.replacement, PlanFor(Trim(before.innerText), file != null), file)
    else
      after == before
  }

  /** An element replaced by a button. */
  predicate HoldsButton(n: Node)
  {
    n.Replaced? && n.replacement.Made?
  }

  /**
   * One step of the reading-view processor: the code element at `i` is
   * replaced when it is a toggle block, unless `createButton` throws on it.
   */
  method ProcessBlock(codeblocks: array<Node>, i: nat, activeFile: File?) returns (threw: bool)
    requires i < codeblocks.Length && codeblocks[i].Code?
    modifies codeblocks
    ensures threw <==> Throwing(old(codeblocks[i]), activeFile != null)
    ensures !threw ==> Processed(codeblocks[i], old(codeblocks[i]), activeFile)
    ensures threw ==> codeblocks[i] == old(codeblocks[i])
    ensures HoldsButton(codeblocks[i]) ==> fresh(codeblocks[i].replacement.button)
    ensures forall j | 0 <= j < codeblocks.Length && j != i :: codeblocks[j] == old(codeblocks[j])
  {
    var codeblock := codeblocks[i];
    var text := Trim(codeblock.innerText);
    threw := false;
    if StartsWith(text, Tag) {
      var button := CreateButton(text, activeFile);
      if button.Threw? {
        return true;
      }
      codeblocks[i] := Replaced(button);
    }
  }

  /**
   * The reading-view processor's loop over the page's code elements. Each
   * toggle block is replaced, in order, by what `createButton` makes of its
   * trimmed text (tag line included); other elements stay. A block that
   * throws ends the loop, and its index is returned; `codeblocks.Length`
   * when none throws. Every button put in place is new, and no two
   * elements are replaced by the same button.
   */
  method PostProcess(codeblocks: array<Node>, activeFile: File?) returns (stopped: nat)
    requires forall i | 0 <= i < codeblocks.Length :: codeblocks[i].Code?
    modifies codeblocks
    ensures stopped <= codeblocks.Length
    ensures stopped < codeblocks.Length ==> Throwing(old(codeblocks[stopped]), activeFile != null)
    ensures forall i | 0 <= i < stopped ::
              !Throwing(old(codeblocks[i]), activeFile != null) && Processed(codeblocks[i], old(codeblocks[i]), activeFile)
    ensures forall i | stopped <= i < codeblocks.Length :: codeblocks[i] == old(codeblocks[i])
    ensures forall i | 0 <= i < stopped && HoldsButton(codeblocks[i]) :: fresh(codeblocks[i].replacement.button)
    ensures forall i, j | 0 <= i < j < stopped && HoldsButton(codeblocks[i]) && HoldsButton(codeblocks[j]) ::
              codeblocks[i].replacement.button != codeblocks[j].replacement.button
  {
    var i := 0;
    while i < codeblocks.Length
      invariant 0 <= i <= codeblocks.Length
      invariant forall j | 0 <= j < i ::
                  && !Throwing(old(codeblocks[j]), activeFile != null)
                  && Processed(codeblocks[j], old(codeblocks[j]), activeFile)
                  && (HoldsButton(codeblocks[j]) ==> fresh(codeblocks[j].replacement.button))
      invariant forall j | i <= j < codeblocks.Length :: codeblocks[j] == old(codeblocks[j])
      invariant forall j, k | 0 <= j < k < i && HoldsButton(codeblocks[j]) && HoldsButton(codeblocks[k]) ::
                  codeblocks[j].replacement.button != codeblocks[k].replacement.button
    {
      var threw := ProcessBlock(codeblocks, i, activeFile);
      if threw {
        return i;
      }
      i := i + 1;
    }
    return codeblocks.Length;
  }
}
