/**
 * The block-argument parser `getArgs`: the block text is trimmed and split
 * into lines; each line is split at every ':'; the first segment, lowered
 * and trimmed, is the key and the second segment, trimmed, is the value.
 * A line without ':' has no second segment, and reading it throws.
 */
module Args {
  import opened Wrappers
  import opened Text

  const LineBreak := '\n'
  const Colon := ':'

  /** The tag that marks a block as one of this plugin's buttons. */
  const Tag := "togglebutton"

  /** The lines of the trimmed block text. */
  function Lines(source: string): (r: seq<string>)
    ensures |r| >= 1
  {
    Split(Trim(source), LineBreak)
  }

  /** Whether `line.split(":")[1]` is defined. */
  predicate HasValue(line: string)
  {
    |Split(line, Colon)| >= 2
  }

  /**
   * `keyValuePair[0].toLowerCase().trim()`: the key of a line, which is
   * lowered and has no white space at either end.
   */
  function KeyOf(line: string): (k: string)
    ensures IsLower(k) && Trim(k) == k
  {
    var first := Split(line, Colon)[0];
    TrimToLowerCommute(first);
    TrimIdempotent(ToLower(first));
    Trim(ToLower(first))
  }

  /**
   * `keyValuePair[1].trim()`: the value of a line, which holds no ':' and has
   * no white space at either end.
   */
  function ValueOf(line: string): (v: string)
    requires HasValue(line)
    ensures Colon !in v && Trim(v) == v
  {
    var second := Split(line, Colon)[1];
    SplitPiecesFree(line, Colon);
    TrimSpec(second);
    TrimIdempotent(second);
    Trim(second)
  }

  predicate AllHaveValues(lines: seq<string>)
  {
    forall i | 0 <= i < |lines| :: HasValue(lines[i])
  }

  /** One `key: value` line, after normalisation. */
  datatype Entry = Entry(key: string, value: string)

  function EntryOf(line: string): Entry
    requires HasValue(line)
  {
    Entry(KeyOf(line), ValueOf(line))
  }

  /** The key and value the loop of `getArgs` computes for a line form its entry. */
  lemma LineEntry(line: string, keyValuePair: seq<string>, key: string, value: string)
    requires keyValuePair == Split(line, Colon) && |keyValuePair| >= 2
    requires key == Trim(ToLower(keyValuePair[0])) && value == Trim(keyValuePair[1])
    ensures HasValue(line) && EntryOf(line) == Entry(key, value)
  {
  }

  /** The entries of the lines, in order. */
  function Entries(lines: seq<string>): (r: seq<Entry>)
    requires AllHaveValues(lines)
    ensures |r| == |lines|
  {
    if lines == [] then []
    else Entries(lines[..|lines| - 1]) + [EntryOf(lines[|lines| - 1])]
  }

  /** The dictionary after storing the entries in order, each overwriting the key before. */
  function Store(entries: seq<Entry>): (m: map<string, string>)
    ensures |m| <= |entries|
  {
    if entries == [] then map[]
    else
      var last := entries[|entries| - 1];
      Store(entries[..|entries| - 1])[last.key := last.value]
  }

  /** What `getArgs` returns, or `None` where it throws. */
  function ParseArgs(source: string): (r: Option<map<string, string>>)
    ensures r.Some? ==> |r.value| <= |Lines(source)|
  {
    var lines := Lines(source);
    if AllHaveValues(lines) then Some(Store(Entries(lines))) else None
  }

  /** `getArgs`: fills the dictionary line by line. */
  method GetArgs(source: string) returns (r: Option<map<string, string>>)
    ensures r == ParseArgs(source)
  {
    var split := Split(Trim(source), LineBreak);
    var args: map<string, string> := map[];
    for i := 0 to |split|
      invariant AllHaveValues(split[..i])
      invariant args == Store(Entries(split[..i]))
    {
      var line := split[i];
      var keyValuePair := Split(line, Colon);
      var key := Trim(ToLower(keyValuePair[0]));
      if |keyValuePair| < 2 {
        // `keyValuePair[1]` is undefined and `.trim()` throws
        assert !HasValue(split[i]);
        return None;
      }
      var value := Trim(keyValuePair[1]);
      LineEntry(line, keyValuePair, key, value);
      EntriesSnoc(split, i);
      args := args[key := value];
    }
    TakeAll(split);
    ParseArgsOfLines(source);
    return Some(args);
  }

  lemma TakeAll(lines: seq<string>)
    ensures lines[..|lines|] == lines
  {
  }

  /** When every line has a value, `getArgs` returns the stored entries of the lines. */
  lemma ParseArgsOfLines(source: string)
    requires AllHaveValues(Lines(source))
    ensures ParseArgs(source) == Some(Store(Entries(Lines(source))))
  {
  }

  // ---------------------------------------------------------------- lemmas

  /** One more line adds its entry at the end. */
  lemma EntriesSnoc(lines: seq<string>, i: nat)
    requires i < |lines| && AllHaveValues(lines[..i]) && HasValue(lines[i])
    ensures AllHaveValues(lines[..i + 1])
    ensures Entries(lines[..i + 1]) == Entries(lines[..i]) + [EntryOf(lines[i])]
  {
    var done := lines[..i + 1];
    assert done[..i] == lines[..i] && done[i] == lines[i];
  }

  /** `getArgs` returns exactly when every line of the trimmed text holds a ':'. */
  lemma ParseArgsSucceedsIff(source: string)
    ensures ParseArgs(source).Some? <==>
      forall i | 0 <= i < |Lines(source)| :: Colon in Lines(source)[i]
  {
    var lines := Lines(source);
    forall i | 0 <= i < |lines|
      ensures HasValue(lines[i]) <==> Colon in lines[i]
    {
      SplitHasSecond(lines[i], Colon);
    }
  }

  /** A line without ':' anywhere in the block makes `getArgs` throw. */
  lemma LineWithoutColonFails(source: string, i: nat)
    requires i < |Lines(source)| && Colon !in Lines(source)[i]
    ensures ParseArgs(source) == None
  {
    SplitHasSecond(Lines(source)[i], Colon);
  }

  /** A blank or white-space-only line inside the block makes `getArgs` throw. */
  lemma BlankLineFails(source: string, i: nat)
    requires i < |Lines(source)| && AllSpace(Lines(source)[i])
    ensures ParseArgs(source) == None
  {
    assert !IsSpace(Colon);
    LineWithoutColonFails(source, i);
  }

  /** An empty or white-space-only block makes `getArgs` throw. */
  lemma EmptySourceFails(source: string)
    requires AllSpace(source)
    ensures ParseArgs(source) == None
  {
    TrimEmptyIff(source);
    assert Lines(source) == [[]];
    LineWithoutColonFails(source, 0);
  }

  /** The keys of the dictionary are the keys of the entries. */
  lemma {:induction false} StoreKeys(entries: seq<Entry>, k: string)
    ensures k in Store(entries) <==> exists i | 0 <= i < |entries| :: entries[i].key == k
  {
    if entries != [] {
      var n := |entries| - 1;
      var init := entries[..n];
      StoreKeys(init, k);
      if k in Store(init) {
        var i :| 0 <= i < |init| && init[i].key == k;
        assert entries[i].key == k;
      }
      if exists i | 0 <= i < |entries| :: entries[i].key == k {
        var i :| 0 <= i < |entries| && entries[i].key == k;
        if i < n {
          assert init[i].key == k;
        }
      }
    }
  }

  /** When a key occurs in several entries, the last of them gives its value. */
  lemma {:induction false} LastOccurrenceWins(entries: seq<Entry>, i: nat)
    requires i < |entries|
    requires forall j | i < j < |entries| :: entries[j].key != entries[i].key
    ensures entries[i].key in Store(entries)
    ensures Store(entries)[entries[i].key] == entries[i].value
  {
    var n := |entries| - 1;
    if i < n {
      var init := entries[..n];
      assert init[i] == entries[i];
      LastOccurrenceWins(init, i);
    }
  }

  /** Entry `i` is the normalised line `i`. */
  lemma {:induction false} EntriesAt(lines: seq<string>, i: nat)
    requires AllHaveValues(lines) && i < |lines|
    ensures Entries(lines)[i] == EntryOf(lines[i])
  {
    var n := |lines| - 1;
    var init := lines[..n];
    assert Entries(lines) == Entries(init) + [EntryOf(lines[n])];
    if i < n {
      assert init[i] == lines[i];
      EntriesAt(init, i);
    }
  }

  /** The value stored for a key is that of the last entry carrying the key. */
  lemma StoreLast(entries: seq<Entry>, k: string)
    requires k in Store(entries)
    ensures exists i | 0 <= i < |entries| ::
      && entries[i].key == k
      && Store(entries)[k] == entries[i].value
      && forall j | i < j < |entries| :: entries[j].key != k
  {
    StoreKeys(entries, k);
    var i :| 0 <= i < |entries| && entries[i].key == k;
    while exists j | i < j < |entries| :: entries[j].key == k
      invariant 0 <= i < |entries| && entries[i].key == k
      decreases |entries| - i
    {
      var j :| i < j < |entries| && entries[j].key == k;
      i := j;
    }
    LastOccurrenceWins(entries, i);
  }

  /**
   * A later line overwrites an earlier one: the value stored for the key of
   * line `i` is that line's value when no later line has the same key.
   */
  lemma LastLineWins(source: string, i: nat)
    requires ParseArgs(source).Some? && i < |Lines(source)|
    requires forall j | i < j < |Lines(source)| :: KeyOf(Lines(source)[j]) != KeyOf(Lines(source)[i])
    ensures KeyOf(Lines(source)[i]) in ParseArgs(source).value
    ensures ParseArgs(source).value[KeyOf(Lines(source)[i])] == ValueOf(Lines(source)[i])
  {
    var lines := Lines(source);
    var es := Entries(lines);
    forall j | i <= j < |lines|
      ensures es[j] == EntryOf(lines[j])
    {
      EntriesAt(lines, j);
    }
    LastOccurrenceWins(es, i);
  }

  /** Every key of the dictionary `getArgs` returns is lowered and trimmed. */
  lemma KeysNormalized(source: string, k: string)
    requires ParseArgs(source).Some? && k in ParseArgs(source).value
    ensures IsLower(k) && Trim(k) == k
  {
    var lines := Lines(source);
    var es := Entries(lines);
    StoreKeys(es, k);
    var i :| 0 <= i < |es| && es[i].key == k;
    EntriesAt(lines, i);
  }

  /**
   * The key is the text before the first ':' and the value the text between
   * the first and the second ':' (or the end of the line); the rest of the line
   * is dropped.
   */
  lemma LineSegments(key: string, value: string, rest: string)
    requires Colon !in key && Colon !in value
    requires rest == [] || rest[0] == Colon
    ensures HasValue(key + [Colon] + value + rest)
    ensures KeyOf(key + [Colon] + value + rest) == Trim(ToLower(key))
    ensures ValueOf(key + [Colon] + value + rest) == Trim(value)
  {
    var line := key + [Colon] + value + rest;
    assert line == key + [Colon] + (value + rest);
    SplitAt(key, Colon, value + rest);
    if rest == [] {
      SplitNone(value, Colon);
      assert value + rest == value;
    } else {
      assert value + rest == value + [Colon] + rest[1..];
      SplitAt(value, Colon, rest[1..]);
    }
  }

  /** A block of one line with a value gives a dictionary of one entry. */
  lemma SingleLine(source: string)
    requires HasValue(Trim(source)) && LineBreak !in Trim(source)
    ensures ParseArgs(source) == Some(map[KeyOf(Trim(source)) := ValueOf(Trim(source))])
  {
    var line := Trim(source);
    SplitNone(line, LineBreak);
    assert Lines(source) == [line];
    assert [line][..0] == [];
    assert Entries([line]) == [EntryOf(line)];
    assert Store([EntryOf(line)]) == map[KeyOf(line) := ValueOf(line)];
  }

  /**
   * A time such as `label: 10:30` is cut at its own ':': the block gives the
   * label `10`, and the text after the second ':' is lost.
   */
  lemma SecondColonDropsRest(key: string, hours: string, minutes: string)
    requires key != [] && IsLower(key) && Trim(key) == key
    requires Trim(hours) == hours
    requires minutes != [] && !IsSpace(minutes[|minutes| - 1])
    requires Colon !in key && Colon !in hours
    requires LineBreak !in key && LineBreak !in hours && LineBreak !in minutes
    ensures ParseArgs(key + ": " + hours + ":" + minutes) == Some(map[key := hours])
  {
    var line := key + ": " + hours + ":" + minutes;
    TimeLineEntry(key, hours, minutes);
    TrimSpec(key);
    assert line[0] == key[0];
    TrimNoop(line);
    assert LineBreak !in line;
    SingleLine(line);
  }

  /** The line `key: hours:minutes` stores `hours` under `key`. */
  lemma TimeLineEntry(key: string, hours: string, minutes: string)
    requires IsLower(key) && Trim(key) == key && Trim(hours) == hours
    requires Colon !in key && Colon !in hours
    ensures var line := key + ": " + hours + ":" + minutes;
      HasValue(line) && KeyOf(line) == key && ValueOf(line) == hours
  {
    var line := key + ": " + hours + ":" + minutes;
    assert line == key + [Colon] + (" " + hours) + ([Colon] + minutes);
    LineSegments(key, " " + hours, [Colon] + minutes);
    ToLowerNoop(key);
    TrimPadded(" ", hours, "");
    assert " " + hours + "" == " " + hours;
  }

  // ------------------------------------------------ the reading-view text

  /** Lowering keeps a prefix, lowered. */
  lemma ToLowerKeepsPrefix(s: string, p: string)
    requires StartsWith(s, p)
    ensures StartsWith(ToLower(s), ToLower(p))
  {
    assert ToLower(s)[..|p|] == ToLower(s[..|p|]);
  }

  lemma TagFacts()
    ensures LineBreak !in Tag && Colon !in Tag && IsLower(Tag)
    ensures !IsSpace(Tag[0]) && !IsSpace(Tag[|Tag| - 1])
  {
  }

  /**
   * The text the reading-view scanner hands on still begins with the tag, so
   * the key of its first line begins with the tag too: that line never sets
   * `label`, `property` or `id`.
   */
  lemma TaggedFirstKey(text: string)
    requires StartsWith(Trim(text), Tag)
    ensures StartsWith(KeyOf(Lines(text)[0]), Tag)
    ensures KeyOf(Lines(text)[0]) !in {"label", "property", "id"}
  {
    TagFacts();
    SplitFirstStartsWith(Trim(text), LineBreak, Tag);
    var first := Split(Lines(text)[0], Colon)[0];
    SplitFirstStartsWith(Lines(text)[0], Colon, Tag);
    ToLowerKeepsPrefix(first, Tag);
    ToLowerNoop(Tag);
    TrimKeepsPrefix(ToLower(first), Tag);
    var key := KeyOf(Lines(text)[0]);
    assert key[0] == 't';
  }

  /**
   * When the tag, with nothing but white space around it, is the first line
   * of the reading-view text, that line has no ':' and `getArgs` throws.
   */
  lemma TagLineAloneFails(text: string)
    requires Trim(Lines(text)[0]) == Tag
    ensures ParseArgs(text) == None
  {
    TagFacts();
    var line := Lines(text)[0];
    TrimSpec(line);
    var a := LeadingSpaces(line);
    assert line == line[..a] + Tag + line[a + |Tag|..];
    forall k | 0 <= k < |line|
      ensures line[k] != Colon
    {
      if k < a {
        assert line[k] == line[..a][k];
      } else if k < a + |Tag| {
        assert line[k] == Tag[k - a];
      } else {
        assert line[k] == line[a + |Tag|..][k - a - |Tag|];
      }
    }
    LineWithoutColonFails(text, 0);
  }

  /** White space around the whole text adds no lines and changes no entry. */
  lemma PaddedSource(before: string, source: string, after: string)
    requires AllSpace(before) && AllSpace(after)
    ensures Lines(before + source + after) == Lines(source)
    ensures ParseArgs(before + source + after) == ParseArgs(source)
  {
    TrimPadded(before, source, after);
  }
}
