/**
 What each action of the pipeline settings does to the list of templates, and what the stage parser and
 the form accept, told from the posted fields and the list alone.
 */
module PipelineRequests {
  import opened Wrappers
  import opened Lookup
  import opened Pipelines
  import Text
  import TextLaws

  // ----- Stages -----

  /** A comma, or an end of line. */
  predicate Parts(c: char) {
    c == ',' || c in {10 as char, 11 as char, 12 as char, 13 as char, 28 as char, 29 as char, 30 as char}
  }

  /** A text with every part mark written as a line feed. */
  function Lined(s: string): (r: string)
    ensures |r| == |s| && forall i :: 0 <= i < |s| ==> r[i] == if Parts(s[i]) then '\n' else s[i]
  {
    seq(|s|, i requires 0 <= i < |s| => if Parts(s[i]) then '\n' else s[i])
  }

  /** It does not matter which mark parts the stages. */
  lemma {:induction false} MarksAlike(s: string)
    ensures Pieces(Lined(s)) == Pieces(s)
  {
    if s != "" {
      MarksAlike(s[1..]);
      assert Lined(s)[1..] == Lined(s[1..]);
    }
  }

  lemma AnyMark(raw: string)
    ensures ParsedStages(Lined(raw)) == ParsedStages(raw)
  {
    MarksAlike(raw);
  }

  /** Stages that each parse alone: bare, not empty, and without a mark. */
  predicate SingleStage(stage: string) {
    stage != "" && TextLaws.Bare(stage) && forall k :: 0 <= k < |stage| ==> !Parts(stage[k])
  }

  /** Stage i has the same letters as an earlier one. */
  predicate RepeatsAt(stages: seq<string>, i: nat) {
    i < |stages| && exists j :: 0 <= j < i && TextLaws.SameLetters(stages[j], stages[i])
  }

  lemma RepeatsAlike(stages: seq<string>, i: nat)
    requires i < |stages|
    ensures Repeats(stages, i) <==> RepeatsAt(stages, i)
  {
    forall j | 0 <= j < i
      ensures Text.Lower(stages[j]) == Text.Lower(stages[i]) <==> TextLaws.SameLetters(stages[j], stages[i])
    {
      TextLaws.LowerAlike(stages[j], stages[i]);
    }
  }

  lemma {:induction false} FirstRepeatIs(parts: seq<string>, i: nat, k: nat)
    requires i <= k < |parts| && Repeats(parts, k) && forall j :: i <= j < k ==> !Repeats(parts, j)
    ensures FirstRepeat(parts, i) == Some(parts[k])
    decreases k - i
  {
    if i < k {
      FirstRepeatIs(parts, i + 1, k);
    }
  }

  lemma SinglesGood(stages: seq<string>)
    requires forall i :: 0 <= i < |stages| ==> SingleStage(stages[i])
    ensures forall i :: 0 <= i < |stages| ==> GoodStage(stages[i])
  {
    forall i | 0 <= i < |stages|
      ensures GoodStage(stages[i])
    {
      SingleIsGood(stages[i]);
    }
  }

  /** Stages one per line are accepted as they stand when no two have the same letters. */
  lemma LinesAccepted(stages: seq<string>)
    requires stages != [] && forall i :: 0 <= i < |stages| ==> SingleStage(stages[i])
    requires forall i :: 0 <= i < |stages| ==> !RepeatsAt(stages, i)
    ensures ParsedStages(Lines(stages)) == Ok(stages)
  {
    SinglesGood(stages);
    forall i | 0 <= i < |stages|
      ensures !Repeats(stages, i)
    {
      RepeatsAlike(stages, i);
    }
    LinesParseBack(stages);
  }

  /** Otherwise they are refused for the first that repeats an earlier one. */
  lemma LinesRefused(stages: seq<string>, k: nat)
    requires forall i :: 0 <= i < |stages| ==> SingleStage(stages[i])
    requires RepeatsAt(stages, k) && forall i :: 0 <= i < k ==> !RepeatsAt(stages, i)
    ensures ParsedStages(Lines(stages)) == Err(Repeated(stages[k]))
  {
    SinglesGood(stages);
    TrimmedLines(stages);
    forall i | 0 <= i <= k
      ensures Repeats(stages, i) <==> i == k
    {
      RepeatsAlike(stages, i);
    }
    FirstRepeatIs(stages, 0, k);
  }

  lemma SingleIsGood(stage: string)
    requires SingleStage(stage)
    ensures GoodStage(stage)
  {
    forall k | 0 <= k < |stage|
      ensures !IsBreak(stage[k])
    {
      assert !Parts(stage[k]);
    }
  }

  /** A text of marks and white space holds no stage. */
  lemma BlankHasNoStage(raw: string)
    requires forall i :: 0 <= i < |raw| ==> Parts(raw[i]) || raw[i] in TextLaws.WHITE
    ensures ParsedStages(raw) == Err(NoStage)
  {
    BlankPieces(raw);
  }

  lemma {:induction false} BlankPieces(raw: string)
    requires forall i :: 0 <= i < |raw| ==> Parts(raw[i]) || raw[i] in TextLaws.WHITE
    ensures forall i :: 0 <= i < |Pieces(raw)| ==> TextLaws.White(Pieces(raw)[i])
    ensures Trimmed(Pieces(raw)) == []
  {
    if raw != "" {
      BlankPieces(raw[1..]);
    }
    WhiteTrimmed(Pieces(raw));
  }

  lemma {:induction false} WhiteTrimmed(pieces: seq<string>)
    requires forall i :: 0 <= i < |pieces| ==> TextLaws.White(pieces[i])
    ensures Trimmed(pieces) == []
  {
    if pieces != [] {
      TextLaws.StripLeaves(pieces[0], "", "");
      assert pieces[0] + "" + "" == pieces[0];
      WhiteTrimmed(pieces[1..]);
    }
  }

  // ----- The form -----

  predicate KeyChar(c: char) {
    'a' <= c <= 'z' || '0' <= c <= '9'
  }

  /** Words of small letters and digits joined by single hyphens or underscores. */
  predicate WellFormed(key: string) {
    && key != "" && KeyChar(key[0]) && KeyChar(key[|key| - 1])
    && (forall i :: 0 <= i < |key| ==> KeyChar(key[i]) || key[i] == '-' || key[i] == '_')
    && (forall i :: 0 <= i < |key| - 1 ==> KeyChar(key[i]) || KeyChar(key[i + 1]))
  }

  lemma KeyWellFormed(key: string)
    ensures IsKey(key) <==> WellFormed(key)
  {
    if IsKey(key) {
      forall i | 0 <= i < |key|
        ensures KeyChar(key[i]) || key[i] == '-' || key[i] == '_'
        ensures i + 1 < |key| ==> KeyChar(key[i]) || KeyChar(key[i + 1])
      {
        assert KeyCharAt(key, i);
        assert i + 1 < |key| ==> KeyCharAt(key, i + 1);
      }
    }
    if WellFormed(key) {
      forall i | 0 <= i < |key|
        ensures KeyCharAt(key, i)
      {
        assert i > 0 ==> KeyChar(key[i - 1]) || KeyChar(key[i - 1 + 1]);
      }
    }
  }

  /** The key a form asks for: the one typed, or the slug of its title. */
  function AskedKey(form: Form): string {
    if TextLaws.White(form.key) then form.slug else Text.Folded(form.key)
  }

  predicate Taken(templates: seq<Template>, key: string) {
    exists i :: 0 <= i < |templates| && templates[i].key != "" && Text.Folded(templates[i].key) == key
  }

  lemma BlankFolds(s: string)
    ensures Text.Folded(s) == "" <==> TextLaws.White(s)
  {
    TextLaws.BlankStrips(s);
  }

  /**
     A form is accepted exactly when its key is well formed, its title is not blank, its stages parse, and
     no other template than the selected one has the key; and then it describes that key, the stripped
     title and the parsed stages.
   */
  lemma AcceptedExactly(templates: seq<Template>, form: Form)
    ensures var key := AskedKey(form);
      && (Cleaned(templates, form).Ok? <==>
        && WellFormed(key) && !TextLaws.White(form.title) && ParsedStages(form.stages).Ok?
        && (key == Text.Folded(form.selected) || !Taken(templates, key)))
      && (Cleaned(templates, form).Ok? ==>
        Cleaned(templates, form).value == Template(key, Text.Strip(form.title), ParsedStages(form.stages).value))
  {
    BlankFolds(form.key);
    BlankFolds(form.title);
    KeyWellFormed(AskedKey(form));
    KeyWellFormed(Text.Folded(form.key));
    assert Taken(templates, AskedKey(form)) <==> ExistingKey(templates, AskedKey(form));
  }

  // ----- Saving -----

  /** A refused form changes nothing. */
  lemma RefusedChangesNothing(templates: seq<Template>, form: Form)
    requires Cleaned(templates, form).Err?
    ensures Act(templates, Save(form)) == templates
  {
  }

  /** The template that an accepted form describes. */
  function Described(form: Form): Template
    requires ParsedStages(form.stages).Ok?
  {
    Template(AskedKey(form), Text.Strip(form.title), ParsedStages(form.stages).value)
  }

  /**
     Saving over the template at place i: it takes the new title and stages where it stands, or first if it
     is made the default; the others keep their order.
   */
  lemma SaveEdits(templates: seq<Template>, form: Form, i: nat)
    requires UniqueKeys(templates) && Cleaned(templates, form).Ok?
    requires i < |templates| && templates[i].key == AskedKey(form)
    ensures ParsedStages(form.stages).Ok?
    ensures Act(templates, Save(form)) ==
      if form.makeDefault then [Described(form)] + templates[..i] + templates[i + 1..]
      else templates[i := Described(form)]
  {
    AcceptedExactly(templates, form);
    var t := Described(form);
    ReplacedInPlace(templates, t, i);
    if form.makeDefault || |templates| == 1 {
      MadeDefaultSplit(templates[i := t], i);
    }
  }

  lemma ReplacedInPlace(templates: seq<Template>, t: Template, i: nat)
    requires UniqueKeys(templates) && i < |templates| && templates[i].key == t.key
    ensures Replaced(templates, t.key, t) == templates[i := t] && UniqueKeys(templates[i := t])
  {
  }

  /** Saving a new key: its template comes last, or first if it is made the default or is alone. */
  lemma SaveAdds(templates: seq<Template>, form: Form)
    requires UniqueKeys(templates) && Cleaned(templates, form).Ok?
    requires forall i :: 0 <= i < |templates| ==> templates[i].key != AskedKey(form)
    ensures ParsedStages(form.stages).Ok?
    ensures Act(templates, Save(form)) ==
      if form.makeDefault then [Described(form)] + templates else templates + [Described(form)]
  {
    AcceptedExactly(templates, form);
    var t, n := Described(form), |templates|;
    assert Replaced(templates, t.key, t) == templates + [t];
    if form.makeDefault || n == 0 {
      MadeDefaultSplit(templates + [t], n);
    }
  }

  // ----- The other actions -----

  /** No template has the key that an action names. */
  predicate Missing(templates: seq<Template>, key: string) {
    forall i :: 0 <= i < |templates| ==> templates[i].key != Text.Folded(key)
  }

  /** An action on a key that no template has changes nothing. */
  lemma MissingChangesNothing(templates: seq<Template>, key: string)
    requires Missing(templates, key)
    ensures Act(templates, Remove(key)) == Act(templates, SetDefault(key)) == templates
    ensures Act(templates, MoveUp(key)) == Act(templates, MoveDown(key)) == templates
  {
    RemovedAbsent(templates, Text.Folded(key));
    LastOfKey(templates, Text.Folded(key), |templates|);
    assert templates[..|templates|] == templates;
  }

  /** On the template at place i, up and down swap it with its neighbour, if it has one. */
  lemma MovesAt(templates: seq<Template>, key: string, i: nat)
    requires UniqueKeys(templates) && i < |templates| && templates[i].key == Text.Folded(key)
    ensures Act(templates, MoveUp(key)) ==
      if i == 0 then templates else templates[i := templates[i - 1]][i - 1 := templates[i]]
    ensures Act(templates, MoveDown(key)) ==
      if i + 1 == |templates| then templates else templates[i := templates[i + 1]][i + 1 := templates[i]]
  {
    IndexUnique(templates, i);
  }

  /** Made the default, it goes first, and the others keep their order. */
  lemma DefaultAt(templates: seq<Template>, key: string, i: nat)
    requires UniqueKeys(templates) && i < |templates| && templates[i].key == Text.Folded(key)
    ensures Act(templates, SetDefault(key)) == [templates[i]] + templates[..i] + templates[i + 1..]
  {
    MadeDefaultSplit(templates, i);
  }

  /** Removed, it leaves the others in their order; the only template stays. */
  lemma RemoveAt(templates: seq<Template>, key: string, i: nat)
    requires UniqueKeys(templates) && i < |templates| && templates[i].key == Text.Folded(key)
    ensures Act(templates, Remove(key)) == if |templates| == 1 then templates else templates[..i] + templates[i + 1..]
  {
    assert templates == templates[..i] + [templates[i]] + templates[i + 1..];
    RemovedSplit(templates[..i], templates[i], templates[i + 1..]);
  }
}
