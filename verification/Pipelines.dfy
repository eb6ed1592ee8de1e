/**
 The editor of pipeline templates: parsing the stages of a pipeline from text, the guards of the
 form, and the list of templates that the settings view rewrites.

 The slug of a label is computed by a library and comes with the request.
 */
module Pipelines {
  import opened Wrappers
  import opened Lookup
  import Text

  datatype Template = Template(key: string, title: string, stages: seq<string>)

  // ----- Stages from text -----

  /** Commas and line ends part the stages. */
  predicate IsBreak(c: char) {
    c == ',' || 10 <= c as int <= 13 || 28 <= c as int <= 30
  }

  function Pieces(s: string): (pieces: seq<string>)
    ensures pieces != []
  {
    if s == "" then [""]
    else
      var rest := Pieces(s[1..]);
      if IsBreak(s[0]) then [""] + rest else [[s[0]] + rest[0]] + rest[1..]
  }

  /** The pieces stripped, the blank ones dropped. */
  function Trimmed(pieces: seq<string>): seq<string> {
    if pieces == [] then []
    else
      var piece := Text.Strip(pieces[0]);
      (if piece == "" then [] else [piece]) + Trimmed(pieces[1..])
  }

  datatype StageError = Repeated(stage: string) | NoStage

  /** parts[i] repeats an earlier part, letter case aside. */
  predicate Repeats(parts: seq<string>, i: nat)
    requires i < |parts|
  {
    exists j :: 0 <= j < i && Text.Lower(parts[j]) == Text.Lower(parts[i])
  }

  /** The first repeated part, looking at parts i and later. */
  function FirstRepeat(parts: seq<string>, i: nat): Option<string>
    requires i <= |parts|
    decreases |parts| - i
  {
    if i == |parts| then None else if Repeats(parts, i) then Some(parts[i]) else FirstRepeat(parts, i + 1)
  }

  function ParsedStages(raw: string): Result<seq<string>, StageError> {
    var parts := Trimmed(Pieces(raw));
    match FirstRepeat(parts, 0)
    case Some(part) => Err(Repeated(part))
    case None => if parts == [] then Err(NoStage) else Ok(parts)
  }

  lemma TrimmedStep(pieces: seq<string>, i: nat)
    requires i < |pieces|
    ensures var value := Text.Strip(pieces[i]);
      Trimmed(pieces[i..]) == (if value == "" then [] else [value]) + Trimmed(pieces[i + 1..])
  {
    assert pieces[i..][1..] == pieces[i + 1..];
  }

  method TrimPieces(pieces: seq<string>) returns (parts: seq<string>)
    ensures parts == Trimmed(pieces)
  {
    parts := [];
    for i := 0 to |pieces|
      invariant parts + Trimmed(pieces[i..]) == Trimmed(pieces)
    {
      var value := Text.Strip(pieces[i]);
      TrimmedStep(pieces, i);
      if value != "" {
        parts := parts + [value];
      }
    }
  }

  method RefuseRepeated(parts: seq<string>) returns (repeated: Option<string>)
    ensures repeated == FirstRepeat(parts, 0)
  {
    var seen: set<string> := {};
    for i := 0 to |parts|
      invariant forall s :: s in seen <==> exists j :: 0 <= j < i && Text.Lower(parts[j]) == s
      invariant FirstRepeat(parts, 0) == FirstRepeat(parts, i)
    {
      var lowered := Text.Lower(parts[i]);
      assert lowered in seen <==> Repeats(parts, i);
      if lowered in seen {
        return Some(parts[i]);
      }
      seen := seen + {lowered};
    }
    repeated := None;
  }

  method ParsePipelineStageLines(raw: string) returns (r: Result<seq<string>, StageError>)
    ensures r == ParsedStages(raw)
  {
    var cleaned := TrimPieces(Pieces(raw));
    var repeated := RefuseRepeated(cleaned);
    match repeated {
      case Some(part) => r := Err(Repeated(part));
      case None => r := if cleaned == [] then Err(NoStage) else Ok(cleaned);
    }
  }

  // ----- The list of templates -----

  predicate HasKey(templates: seq<Template>, key: string) {
    exists i :: 0 <= i < |templates| && templates[i].key == key
  }

  /** Where the first template of a key stands; the length of the list when there is none. */
  function IndexOf(templates: seq<Template>, key: string): (i: nat)
    ensures i <= |templates|
    ensures i < |templates| ==> templates[i].key == key
    ensures forall j :: 0 <= j < i ==> templates[j].key != key
  {
    FirstWhere(templates, (t: Template) => t.key == key)
  }

  function Swapped(templates: seq<Template>, key: string, replacement: Template): (r: seq<Template>)
    ensures |r| == |templates|
    ensures forall i :: 0 <= i < |r| ==> r[i] == if templates[i].key == key then replacement else templates[i]
  {
    seq(|templates|, i requires 0 <= i < |templates| => if templates[i].key == key then replacement else templates[i])
  }

  /** Every template of the key replaced; the replacement appended when there is none. */
  function Replaced(templates: seq<Template>, key: string, replacement: Template): seq<Template> {
    if HasKey(templates, key) then Swapped(templates, key, replacement) else templates + [replacement]
  }

  method ReplacePipelineTemplate(templates: seq<Template>, key: string, replacement: Template) returns (updated: seq<Template>)
    ensures updated == Replaced(templates, key, replacement)
  {
    updated := [];
    var replaced := false;
    for i := 0 to |templates|
      invariant updated == Swapped(templates[..i], key, replacement)
      invariant replaced <==> HasKey(templates[..i], key)
    {
      assert templates[..i + 1] == templates[..i] + [templates[i]];
      if templates[i].key == key {
        updated := updated + [replacement];
        replaced := true;
        assert templates[..i + 1][i].key == key;
      } else {
        updated := updated + [templates[i]];
        assert HasKey(templates[..i + 1], key) ==> HasKey(templates[..i], key);
        assert HasKey(templates[..i], key) ==> HasKey(templates[..i + 1], key) by {
          assert forall j :: 0 <= j < i ==> templates[..i + 1][j] == templates[..i][j];
        }
      }
    }
    assert templates[..|templates|] == templates;
    if !replaced {
      assert updated == templates;
      updated := updated + [replacement];
    }
  }

  /** The template of the key one place up (-1) or down (1), unless that is off the list. */
  function Moved(templates: seq<Template>, key: string, direction: int): seq<Template> {
    var i := IndexOf(templates, key);
    var target := i + direction;
    if i == |templates| || target < 0 || target >= |templates| then templates
    else templates[i := templates[target]][target := templates[i]]
  }

  function Removed(templates: seq<Template>, key: string): seq<Template> {
    if templates == [] then []
    else (if templates[0].key == key then [] else [templates[0]]) + Removed(templates[1..], key)
  }

  /** The last template of the key, among the first n. */
  function LastOf(templates: seq<Template>, key: string, n: nat): Option<Template>
    requires n <= |templates|
  {
    if n == 0 then None else if templates[n - 1].key == key then Some(templates[n - 1]) else LastOf(templates, key, n - 1)
  }

  /** The template of the key first, the others in their order. */
  function MadeDefault(templates: seq<Template>, key: string): seq<Template> {
    match LastOf(templates, key, |templates|)
    case None => templates
    case Some(selected) => [selected] + Removed(templates, key)
  }

  method SetDefaultPipelineTemplate(templates: seq<Template>, key: string) returns (updated: seq<Template>)
    ensures updated == MadeDefault(templates, key)
  {
    var selected: Option<Template> := None;
    var remainder: seq<Template> := [];
    for i := 0 to |templates|
      invariant selected == LastOf(templates, key, i)
      invariant remainder + Removed(templates[i..], key) == Removed(templates, key)
    {
      assert templates[i..][1..] == templates[i + 1..];
      if templates[i].key == key {
        selected := Some(templates[i]);
      } else {
        remainder := remainder + [templates[i]];
      }
    }
    if selected.None? {
      return templates;
    }
    updated := [selected.value] + remainder;
  }

  // ----- The form -----

  predicate IsWordChar(c: char) {
    'a' <= c <= 'z' || '0' <= c <= '9'
  }

  /** Words of small letters and digits, joined by single hyphens or underscores. */
  predicate IsKey(s: string) {
    && s != "" && IsWordChar(s[0]) && IsWordChar(s[|s| - 1])
    && forall i :: 0 <= i < |s| ==> KeyCharAt(s, i)
  }

  /** A word character, or a joint after one. */
  predicate KeyCharAt(s: string, i: nat)
    requires i < |s|
  {
    IsWordChar(s[i]) || ((s[i] == '-' || s[i] == '_') && i > 0 && IsWordChar(s[i - 1]))
  }

  /** A posted form: the selected pipeline, its key and label as typed, the label's slug, the stages and the default mark. */
  datatype Form = Form(selected: string, key: string, title: string, slug: string, stages: string, makeDefault: bool)

  datatype FormError = BadKey | BlankTitle | BadStages(error: StageError) | NoKey | KeyTaken

  predicate ExistingKey(templates: seq<Template>, key: string) {
    exists i :: 0 <= i < |templates| && templates[i].key != "" && Text.Folded(templates[i].key) == key
  }

  /** The template a form describes, or the first reason why it is refused. */
  function Cleaned(templates: seq<Template>, form: Form): Result<Template, FormError> {
    var typed := Text.Folded(form.key);
    var title := Text.Strip(form.title);
    var key := if typed == "" then form.slug else typed;
    var stages := ParsedStages(form.stages);
    if typed != "" && !IsKey(typed) then Err(BadKey)
    else if title == "" then Err(BlankTitle)
    else if stages.Err? then Err(BadStages(stages.error))
    else if key == "" then Err(NoKey)
    else if !IsKey(key) then Err(BadKey)
    else if key != Text.Folded(form.selected) && ExistingKey(templates, key) then Err(KeyTaken)
    else Ok(Template(key, title, stages.value))
  }

  datatype Action =
    | Save(form: Form)
    | Remove(key: string)
    | SetDefault(key: string)
    | MoveUp(key: string)
    | MoveDown(key: string)

  /** The templates after one action of the settings view. */
  function Act(templates: seq<Template>, action: Action): seq<Template> {
    match action
    case Save(form) =>
      (match Cleaned(templates, form)
       case Err(_) => templates
       case Ok(t) =>
         var saved := Replaced(templates, t.key, t);
         if form.makeDefault || |saved| == 1 then MadeDefault(saved, t.key) else saved)
    case Remove(key) => if |templates| <= 1 then templates else Removed(templates, Text.Folded(key))
    case SetDefault(key) => MadeDefault(templates, Text.Folded(key))
    case MoveUp(key) => Moved(templates, Text.Folded(key), -1)
    case MoveDown(key) => Moved(templates, Text.Folded(key), 1)
  }

  // ----- The laws -----

  /** A list of stages as the parser gives it. */
  predicate GoodStages(stages: seq<string>) {
    && stages != []
    && (forall i :: 0 <= i < |stages| ==> GoodStage(stages[i]))
    && (forall i :: 0 <= i < |stages| ==> !Repeats(stages, i))
  }

  predicate GoodStage(stage: string) {
    stage != "" && Text.Stripped(stage) && forall k :: 0 <= k < |stage| ==> !IsBreak(stage[k])
  }

  lemma {:induction false} FirstRepeatNone(parts: seq<string>, i: nat)
    requires i <= |parts|
    ensures FirstRepeat(parts, i) == None <==> forall k :: i <= k < |parts| ==> !Repeats(parts, k)
    decreases |parts| - i
  {
    if i < |parts| {
      FirstRepeatNone(parts, i + 1);
    }
  }

  lemma {:induction false} PiecesUnbroken(s: string)
    ensures forall i, k :: 0 <= i < |Pieces(s)| && 0 <= k < |Pieces(s)[i]| ==> !IsBreak(Pieces(s)[i][k])
  {
    if s != "" {
      PiecesUnbroken(s[1..]);
      var rest := Pieces(s[1..]);
      if IsBreak(s[0]) {
        assert forall i :: 1 <= i < |Pieces(s)| ==> Pieces(s)[i] == rest[i - 1];
      } else {
        assert Pieces(s)[0] == [s[0]] + rest[0];
        assert forall i :: 1 <= i < |Pieces(s)| ==> Pieces(s)[i] == rest[i];
      }
    }
  }

  lemma {:induction false} StripPart(s: string, k: nat)
    requires k < |Text.Strip(s)|
    ensures Text.Strip(s)[k] in s
  {
    StripRightPart(Text.StripLeft(s));
    StripLeftPart(s);
    var c := Text.Strip(s)[k];
    assert c in Text.Strip(s);
  }

  lemma {:induction false} StripLeftPart(s: string)
    ensures forall c :: c in Text.StripLeft(s) ==> c in s
  {
    if s != "" && Text.IsSpace(s[0]) {
      StripLeftPart(s[1..]);
    }
  }

  lemma {:induction false} StripRightPart(s: string)
    ensures forall c :: c in Text.StripRight(s) ==> c in s
  {
    if s != "" && Text.IsSpace(s[|s| - 1]) {
      StripRightPart(s[..|s| - 1]);
    }
  }

  lemma {:induction false} TrimmedGood(pieces: seq<string>)
    requires forall i, k :: 0 <= i < |pieces| && 0 <= k < |pieces[i]| ==> !IsBreak(pieces[i][k])
    ensures forall i :: 0 <= i < |Trimmed(pieces)| ==> GoodStage(Trimmed(pieces)[i])
  {
    if pieces != [] {
      var piece := Text.Strip(pieces[0]);
      TrimmedGood(pieces[1..]);
      Text.StripStrips(pieces[0]);
      forall k | 0 <= k < |piece|
        ensures !IsBreak(piece[k])
      {
        StripPart(pieces[0], k);
      }
    }
  }

  /** What the parser accepts is a non-empty list of non-blank, stripped stages, no two alike but for letter case. */
  lemma ParsedIsGood(raw: string)
    ensures ParsedStages(raw).Ok? ==> GoodStages(ParsedStages(raw).value)
  {
    PiecesUnbroken(raw);
    TrimmedGood(Pieces(raw));
    FirstRepeatNone(Trimmed(Pieces(raw)), 0);
  }

  /** The stages one per line, as the editor shows them. */
  function Lines(stages: seq<string>): string {
    if stages == [] then "" else if |stages| == 1 then stages[0] else stages[0] + "\n" + Lines(stages[1..])
  }

  lemma {:induction false} PiecesLine(line: string, rest: string)
    requires forall k :: 0 <= k < |line| ==> !IsBreak(line[k])
    ensures Pieces(line + "\n" + rest) == [line] + Pieces(rest)
    ensures Pieces(line) == [line]
  {
    if line == "" {
      assert line + "\n" + rest == "\n" + rest;
      assert ("\n" + rest)[1..] == rest;
    } else {
      PiecesLine(line[1..], rest);
      assert (line + "\n" + rest)[1..] == line[1..] + "\n" + rest;
      assert [line[0]] + line[1..] == line;
    }
  }

  lemma {:induction false} TrimmedLines(stages: seq<string>)
    requires stages != [] && forall i :: 0 <= i < |stages| ==> GoodStage(stages[i])
    ensures Trimmed(Pieces(Lines(stages))) == stages
  {
    Text.StripStrips(stages[0]);
    if |stages| == 1 {
      PiecesLine(stages[0], "");
      assert Trimmed([stages[0]]) == [stages[0]] + Trimmed([stages[0]][1..]);
    } else {
      TrimmedLines(stages[1..]);
      PiecesLine(stages[0], Lines(stages[1..]));
      var pieces := [stages[0]] + Pieces(Lines(stages[1..]));
      assert pieces[1..] == Pieces(Lines(stages[1..]));
    }
  }

  /** Saving the stages as the editor shows them keeps them. */
  lemma LinesParseBack(stages: seq<string>)
    requires GoodStages(stages)
    ensures ParsedStages(Lines(stages)) == Ok(stages)
  {
    TrimmedLines(stages);
    FirstRepeatNone(stages, 0);
  }

  ghost predicate UniqueKeys(templates: seq<Template>) {
    forall i, j :: 0 <= i < j < |templates| ==> templates[i].key != templates[j].key
  }

  /** Unique well-formed keys, and stages as the parser gives them. */
  ghost predicate Sound(templates: seq<Template>) {
    && UniqueKeys(templates)
    && forall i :: 0 <= i < |templates| ==> IsKey(templates[i].key) && GoodStages(templates[i].stages)
  }

  lemma {:induction false} RemovedHolds(templates: seq<Template>, key: string, t: Template)
    ensures t in Removed(templates, key) <==> t in templates && t.key != key
  {
    if templates != [] {
      RemovedHolds(templates[1..], key, t);
      assert templates == [templates[0]] + templates[1..];
    }
  }

  lemma {:induction false} RemovedSound(templates: seq<Template>, key: string)
    requires Sound(templates)
    ensures Sound(Removed(templates, key)) && !HasKey(Removed(templates, key), key)
    ensures forall t :: t in Removed(templates, key) <==> t in templates && t.key != key
  {
    forall t
      ensures t in Removed(templates, key) <==> t in templates && t.key != key
    {
      RemovedHolds(templates, key, t);
    }
    if templates != [] {
      SoundTail(templates);
      RemovedSound(templates[1..], key);
      if templates[0].key != key {
        SoundCons(templates[0], Removed(templates[1..], key));
      }
    }
  }

  lemma SoundTail(templates: seq<Template>)
    requires Sound(templates) && templates != []
    ensures Sound(templates[1..]) && forall t :: t in templates[1..] ==> t.key != templates[0].key
  {
    assert forall i :: 0 <= i < |templates[1..]| ==> templates[1..][i] == templates[i + 1];
  }

  /** With unique keys, at most one template goes. */
  lemma {:induction false} RemovedLength(templates: seq<Template>, key: string)
    requires UniqueKeys(templates)
    ensures |Removed(templates, key)| == if HasKey(templates, key) then |templates| - 1 else |templates|
  {
    if templates != [] {
      RemovedLength(templates[1..], key);
      assert HasKey(templates, key) <==> templates[0].key == key || HasKey(templates[1..], key) by {
        assert forall i :: 0 <= i < |templates[1..]| ==> templates[1..][i] == templates[i + 1];
      }
    }
  }

  lemma {:induction false} LastOfKey(templates: seq<Template>, key: string, n: nat)
    requires n <= |templates|
    ensures LastOf(templates, key, n).Some? <==> HasKey(templates[..n], key)
    ensures LastOf(templates, key, n).Some? ==>
      LastOf(templates, key, n).value in templates && LastOf(templates, key, n).value.key == key
  {
    if n > 0 {
      LastOfKey(templates, key, n - 1);
      assert forall i :: 0 <= i < n - 1 ==> templates[..n][i] == templates[..n - 1][i];
      assert templates[..n][n - 1] == templates[n - 1];
    }
  }

  /** Replacing keeps the keys, and of the other templates everything. */
  lemma ReplacedSound(templates: seq<Template>, t: Template)
    requires Sound(templates) && IsKey(t.key) && GoodStages(t.stages)
    ensures Sound(Replaced(templates, t.key, t)) && HasKey(Replaced(templates, t.key, t), t.key)
    ensures forall u: Template :: u.key != t.key ==> (u in Replaced(templates, t.key, t) <==> u in templates)
    ensures t in Replaced(templates, t.key, t)
  {
    var r := Replaced(templates, t.key, t);
    if HasKey(templates, t.key) {
      var i :| 0 <= i < |templates| && templates[i].key == t.key;
      assert r[i] == t;
      forall u: Template | u.key != t.key
        ensures u in r <==> u in templates
      {
        if u in templates {
          var j :| 0 <= j < |templates| && templates[j] == u;
          assert r[j] == u;
        }
      }
    } else {
      assert r[|templates|] == t;
    }
  }

  lemma MadeDefaultSound(templates: seq<Template>, key: string)
    requires Sound(templates)
    ensures Sound(MadeDefault(templates, key))
    ensures |MadeDefault(templates, key)| == |templates|
    ensures forall t :: t in MadeDefault(templates, key) <==> t in templates
    ensures HasKey(templates, key) ==> MadeDefault(templates, key)[0].key == key
  {
    LastOfKey(templates, key, |templates|);
    assert templates[..|templates|] == templates;
    RemovedSound(templates, key);
    RemovedLength(templates, key);
    var rest := Removed(templates, key);
    if HasKey(templates, key) {
      var selected := LastOf(templates, key, |templates|).value;
      var s := [selected] + rest;
      assert forall i :: 0 <= i < |rest| ==> rest[i] in rest && rest[i].key != key;
      SoundCons(selected, rest);
      forall t | t in templates
        ensures t in s
      {
        if t.key == key {
          OneTemplate(templates, t, selected);
        }
      }
    }
  }

  lemma SoundCons(first: Template, rest: seq<Template>)
    requires Sound(rest) && IsKey(first.key) && GoodStages(first.stages)
    requires forall t :: t in rest ==> t.key != first.key
    ensures Sound([first] + rest)
  {
  }

  /** Keys name templates. */
  lemma OneTemplate(templates: seq<Template>, t: Template, u: Template)
    requires UniqueKeys(templates) && t in templates && u in templates && t.key == u.key
    ensures t == u
  {
  }

  lemma MovedSound(templates: seq<Template>, key: string, direction: int)
    requires Sound(templates)
    ensures Sound(Moved(templates, key, direction)) && |Moved(templates, key, direction)| == |templates|
    ensures multiset(Moved(templates, key, direction)) == multiset(templates)
  {
    var i, target, moved := IndexOf(templates, key), IndexOf(templates, key) + direction, Moved(templates, key, direction);
    if i < |templates| && 0 <= target < |templates| {
      SwapSound(templates, i, target);
      assert moved == templates[i := templates[target]][target := templates[i]];
    } else {
      assert moved == templates;
    }
  }

  lemma SwapSound(templates: seq<Template>, i: nat, target: nat)
    requires Sound(templates) && i < |templates| && target < |templates|
    ensures var swapped := templates[i := templates[target]][target := templates[i]];
      Sound(swapped) && multiset(swapped) == multiset(templates)
  {
    var swapped := templates[i := templates[target]][target := templates[i]];
    assert forall k :: 0 <= k < |swapped| ==>
      swapped[k] == templates[if k == i then target else if k == target then i else k];
  }

  lemma CleanedSound(templates: seq<Template>, form: Form)
    ensures Cleaned(templates, form).Ok? ==>
      IsKey(Cleaned(templates, form).value.key) && GoodStages(Cleaned(templates, form).value.stages)
  {
    ParsedIsGood(form.stages);
  }

  /** Every action keeps keys unique and well formed and stages as the parser gives them; and no action empties the list. */
  lemma ActSound(templates: seq<Template>, action: Action)
    requires Sound(templates)
    ensures Sound(Act(templates, action))
    ensures templates != [] ==> Act(templates, action) != []
  {
    match action
    case Save(form) =>
      CleanedSound(templates, form);
      if Cleaned(templates, form).Ok? {
        var t := Cleaned(templates, form).value;
        ReplacedSound(templates, t);
        MadeDefaultSound(Replaced(templates, t.key, t), t.key);
      }
    case Remove(key) =>
      RemovedSound(templates, Text.Folded(key));
      RemovedLength(templates, Text.Folded(key));
    case SetDefault(key) => MadeDefaultSound(templates, Text.Folded(key));
    case MoveUp(key) => MovedSound(templates, Text.Folded(key), -1);
    case MoveDown(key) => MovedSound(templates, Text.Folded(key), 1);
  }

  function Run(templates: seq<Template>, actions: seq<Action>): seq<Template> {
    if actions == [] then templates
    else Act(Run(templates, actions[..|actions| - 1]), actions[|actions| - 1])
  }

  /** And so does every run. */
  lemma {:induction false} RunSound(templates: seq<Template>, actions: seq<Action>)
    requires Sound(templates)
    ensures Sound(Run(templates, actions))
    ensures templates != [] ==> Run(templates, actions) != []
  {
    if actions != [] {
      RunSound(templates, actions[..|actions| - 1]);
      ActSound(Run(templates, actions[..|actions| - 1]), actions[|actions| - 1]);
    }
  }

  /** A well-formed key is its own normal form. */
  lemma KeyFolded(key: string)
    requires IsKey(key)
    ensures Text.Folded(key) == key
  {
    Text.StripStrips(key);
    forall i | 0 <= i < |key|
      ensures Text.Lower(key)[i] == key[i]
    {
      assert KeyCharAt(key, i);
    }
  }

  /** A saved key that some template has is the selected one. */
  lemma CleanedKeyFree(templates: seq<Template>, form: Form, t: Template)
    requires Cleaned(templates, form).Ok? && t in templates && t.key == Cleaned(templates, form).value.key && IsKey(t.key)
    ensures t.key == Text.Folded(form.selected)
  {
    var i :| 0 <= i < |templates| && templates[i] == t;
    KeyFolded(t.key);
    assert ExistingKey(templates, t.key);
  }

  /**
     The form's guard against a taken key: a save never overwrites a template other than the selected
     one, and it keeps every other template as it was.
   */
  lemma SaveKeepsOthers(templates: seq<Template>, form: Form, t: Template)
    requires Sound(templates) && t in templates && t.key != Text.Folded(form.selected)
    ensures t in Act(templates, Save(form))
  {
    CleanedSound(templates, form);
    if Cleaned(templates, form).Ok? {
      var saved := Cleaned(templates, form).value;
      if t.key == saved.key {
        CleanedKeyFree(templates, form, t);
        assert false;
      }
      ReplacedSound(templates, saved);
      MadeDefaultSound(Replaced(templates, saved.key, saved), saved.key);
    }
  }

  lemma {:induction false} IndexUnique(templates: seq<Template>, i: nat)
    requires UniqueKeys(templates) && i < |templates|
    ensures IndexOf(templates, templates[i].key) == i
  {
  }

  /** Away from the ends, moving up and then down, or down and then up, changes nothing. */
  lemma MovesUndo(templates: seq<Template>, key: string)
    requires UniqueKeys(templates)
    ensures 0 < IndexOf(templates, key) ==> Moved(Moved(templates, key, -1), key, 1) == templates
    ensures IndexOf(templates, key) + 1 < |templates| ==> Moved(Moved(templates, key, 1), key, -1) == templates
  {
    var i := IndexOf(templates, key);
    if i < |templates| {
      if i > 0 {
        SwapIndex(templates, i, i - 1);
      }
      if i + 1 < |templates| {
        SwapIndex(templates, i, i + 1);
      }
    }
  }

  /** Swapping two templates of a list with unique keys, and where the first then stands. */
  lemma SwapIndex(templates: seq<Template>, i: nat, target: nat)
    requires UniqueKeys(templates) && i < |templates| && target < |templates| && i != target
    ensures var swapped := templates[i := templates[target]][target := templates[i]];
      && UniqueKeys(swapped) && IndexOf(swapped, templates[i].key) == target
      && swapped[target := swapped[i]][i := swapped[target]] == templates
  {
    var swapped := templates[i := templates[target]][target := templates[i]];
    IndexUnique(swapped, target);
  }

  /** n times one place up. */
  function MovedUp(templates: seq<Template>, key: string, n: nat): seq<Template>
    decreases n
  {
    if n == 0 then templates else MovedUp(Moved(templates, key, -1), key, n - 1)
  }

  lemma {:induction false} RemovedSplit(a: seq<Template>, t: Template, b: seq<Template>)
    requires forall i :: 0 <= i < |a| ==> a[i].key != t.key
    requires forall i :: 0 <= i < |b| ==> b[i].key != t.key
    ensures Removed(a + [t] + b, t.key) == a + b
  {
    if a == [] {
      assert [] + [t] + b == [t] + b && ([t] + b)[1..] == b;
      RemovedAbsent(b, t.key);
    } else {
      assert (a + [t] + b)[1..] == a[1..] + [t] + b;
      RemovedSplit(a[1..], t, b);
    }
  }

  lemma {:induction false} RemovedAbsent(b: seq<Template>, key: string)
    requires forall i :: 0 <= i < |b| ==> b[i].key != key
    ensures Removed(b, key) == b
  {
    if b != [] {
      RemovedAbsent(b[1..], key);
    }
  }

  /** With unique keys, making a pipeline the default takes it out and puts it first. */
  lemma MadeDefaultSplit(templates: seq<Template>, i: nat)
    requires UniqueKeys(templates) && i < |templates|
    ensures MadeDefault(templates, templates[i].key) == [templates[i]] + templates[..i] + templates[i + 1..]
  {
    var t := templates[i];
    assert templates == templates[..i] + [t] + templates[i + 1..];
    RemovedSplit(templates[..i], t, templates[i + 1..]);
    LastOfKey(templates, t.key, |templates|);
    assert templates[..|templates|] == templates;
    OneTemplate(templates, t, LastOf(templates, t.key, |templates|).value);
  }

  lemma MoveOneUp(templates: seq<Template>, i: nat)
    requires UniqueKeys(templates) && 0 < i < |templates|
    ensures var key := templates[i].key; var up := Moved(templates, key, -1);
      && up == templates[i := templates[i - 1]][i - 1 := templates[i]]
      && UniqueKeys(up) && IndexOf(up, key) == i - 1
  {
    IndexUnique(templates, i);
    SwapIndex(templates, i, i - 1);
  }

  /** Whether a template is moved up first or not, taking it out and putting it first gives the same list. */
  lemma UpAndOut(templates: seq<Template>, i: nat)
    requires 0 < i < |templates|
    ensures var up := templates[i := templates[i - 1]][i - 1 := templates[i]];
      [up[i - 1]] + up[..i - 1] + up[i..] == [templates[i]] + templates[..i] + templates[i + 1..]
  {
  }

  /** One place up does not change what making the pipeline the default gives. */
  lemma MoveThenDefault(templates: seq<Template>, i: nat)
    requires UniqueKeys(templates) && 0 < i < |templates|
    ensures var key := templates[i].key;
      MadeDefault(Moved(templates, key, -1), key) == MadeDefault(templates, key)
  {
    var up := templates[i := templates[i - 1]][i - 1 := templates[i]];
    MoveOneUp(templates, i);
    MadeDefaultSplit(templates, i);
    MadeDefaultSplit(up, i - 1);
    UpAndOut(templates, i);
  }

  /** The list after one move up, as far as moving on and making the default are concerned. */
  lemma MovedOnce(templates: seq<Template>, i: nat) returns (up: seq<Template>)
    requires UniqueKeys(templates) && 0 < i < |templates|
    ensures var key := templates[i].key;
      && up == Moved(templates, key, -1) && UniqueKeys(up) && |up| == |templates| && up[i - 1].key == key
      && MadeDefault(up, key) == MadeDefault(templates, key)
  {
    up := Moved(templates, templates[i].key, -1);
    MoveOneUp(templates, i);
    MoveThenDefault(templates, i);
  }

  lemma MovedUpStep(templates: seq<Template>, key: string, n: nat, up: seq<Template>)
    requires n > 0 && up == Moved(templates, key, -1)
    ensures MovedUp(templates, key, n) == MovedUp(up, key, n - 1)
  {
  }

  /** The first template is the default, and moving it up changes nothing. */
  lemma FirstIsDefault(templates: seq<Template>, n: nat)
    requires UniqueKeys(templates) && templates != []
    ensures MovedUp(templates, templates[0].key, n) == templates == MadeDefault(templates, templates[0].key)
  {
    IndexUnique(templates, 0);
    FirstStays(templates, templates[0].key, n);
    MadeDefaultSplit(templates, 0);
    assert [templates[0]] + templates[..0] + templates[1..] == templates;
  }

  /** Moving the template at place i up until it is first, from a list whose default would be goal. */
  lemma {:induction false} MovesReach(templates: seq<Template>, i: nat, n: nat, goal: seq<Template>)
    requires UniqueKeys(templates) && i < |templates| && i <= n && goal == MadeDefault(templates, templates[i].key)
    ensures MovedUp(templates, templates[i].key, n) == goal
    decreases n
  {
    var key := templates[i].key;
    if i == 0 {
      FirstIsDefault(templates, n);
    } else {
      var up := MovedOnce(templates, i);
      MovesReach(up, i - 1, n - 1, goal);
      MovedUpStep(templates, key, n, up);
    }
  }

  /** Making a pipeline the default is moving it up until it is first; more moves change nothing. */
  lemma DefaultIsMovingUp(templates: seq<Template>, key: string, n: nat)
    requires UniqueKeys(templates) && IndexOf(templates, key) <= n
    ensures MovedUp(templates, key, n) == MadeDefault(templates, key)
  {
    var i := IndexOf(templates, key);
    if i == |templates| {
      NotThere(templates, key, n);
    } else {
      MovesReach(templates, i, n, MadeDefault(templates, key));
    }
  }

  lemma {:induction false} NotThere(templates: seq<Template>, key: string, n: nat)
    requires IndexOf(templates, key) == |templates|
    ensures MovedUp(templates, key, n) == templates == MadeDefault(templates, key)
    decreases n
  {
    LastOfKey(templates, key, |templates|);
    assert templates[..|templates|] == templates;
    if n > 0 {
      NotThere(templates, key, n - 1);
    }
  }

  lemma {:induction false} FirstStays(templates: seq<Template>, key: string, n: nat)
    requires templates != [] && IndexOf(templates, key) == 0
    ensures MovedUp(templates, key, n) == templates
    decreases n
  {
    if n > 0 {
      FirstStays(templates, key, n - 1);
    }
  }
}
