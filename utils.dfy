/** The helpers of the utilities package the backend relies on: template
    substitution (MakeText) and the prompt-and-validate step of the
    interactive wizards (InputAndCheck). */
module Utils {
  import opened GoLib

  // ---------------------------------------------------------------------
  // MakeText

  /** order lists every key of a replacer exactly once: one possible visiting
      order of a range loop over the map. */
  predicate Enumerates(order: seq<string>, keys: set<string>)
  {
    (forall i :: 0 <= i < |order| ==> order[i] in keys) &&
    (forall i, j :: 0 <= i < j < |order| ==> order[i] != order[j]) &&
    (forall k :: k in keys ==> k in order) &&
    |order| == |keys|
  }

  /** The content after the loop body of MakeText has run for the keys of
      order, in that order: each key replaced everywhere by its trimmed
      value. */
  function ReplaceInOrder(script: string, order: seq<string>, replacer: map<string, string>): string
    requires forall i :: 0 <= i < |order| ==> order[i] in replacer
  {
    if order == [] then script
    else
      var last := order[|order| - 1];
      Replace(ReplaceInOrder(script, order[..|order| - 1], replacer), last, TrimSpace(replacer[last]))
  }

  /** MakeText: for each key of the replacer, in the order the map happens
      to be visited, every occurrence of the key is replaced by the trimmed
      value. The error result is always nil. */
  method MakeText(script: string, replacer: map<string, string>) returns (content: string, err: Option<string>)
    ensures err == None
    ensures exists order :: Enumerates(order, replacer.Keys) && content == ReplaceInOrder(script, order, replacer)
  {
    content := script;
    var remaining := replacer.Keys;
    ghost var order: seq<string> := [];
    while remaining != {}
      invariant remaining <= replacer.Keys
      invariant forall i :: 0 <= i < |order| ==> order[i] in replacer && order[i] !in remaining
      invariant forall i, j :: 0 <= i < j < |order| ==> order[i] != order[j]
      invariant forall k :: k in replacer.Keys ==> k in remaining || k in order
      invariant |order| + |remaining| == |replacer.Keys|
      invariant content == ReplaceInOrder(script, order, replacer)
      decreases remaining
    {
      var key :| key in remaining;
      content := Replace(content, key, TrimSpace(replacer[key]));
      assert (order + [key])[..|order|] == order;
      order := order + [key];
      remaining := remaining - {key};
    }
    err := None;
  }

  /** With a single-entry replacer {key: value} the result is the script
      with every non-overlapping occurrence of key replaced by the trimmed
      value. */
  lemma MakeTextSingle(script: string, key: string, value: string, order: seq<string>)
    requires Enumerates(order, {key})
    ensures ReplaceInOrder(script, order, map[key := value]) == Replace(script, key, TrimSpace(value))
  {
    assert order[0] in {key};
    assert order[..0] == [];
  }

  /** When no key of the replacer occurs in the script, the script comes
      back unchanged, whatever the order. */
  lemma {:induction false} MakeTextNoKey(script: string, replacer: map<string, string>, order: seq<string>)
    requires forall i :: 0 <= i < |order| ==> order[i] in replacer
    requires forall k :: k in replacer ==> !Contains(script, k)
    ensures ReplaceInOrder(script, order, replacer) == script
  {
    if order != [] {
      var last := order[|order| - 1];
      MakeTextNoKey(script, replacer, order[..|order| - 1]);
      ReplaceAbsent(script, last, TrimSpace(replacer[last]));
    }
  }

  // ---------------------------------------------------------------------
  // Placeholder templates: where the order does not matter

  /** A piece of a template: literal text or a placeholder. */
  datatype Piece = Text(text: string) | Hole(key: string)

  /** A template as the list of its pieces. */
  datatype Pieces = End | Then(head: Piece, rest: Pieces)

  /** A piece with the placeholders in done replaced by their trimmed
      values; the other placeholders read as their own key. */
  function PieceText(p: Piece, replacer: map<string, string>, done: set<string>): string
  {
    match p
    case Text(t) => t
    case Hole(k) => if k in done && k in replacer then TrimSpace(replacer[k]) else k
  }

  /** The whole template with the placeholders in done replaced. */
  function Fill(ps: Pieces, replacer: map<string, string>, done: set<string>): string
  {
    match ps
    case End => ""
    case Then(p, rest) => PieceText(p, replacer, done) + Fill(rest, replacer, done)
  }

  /** No occurrence of key can straddle the seam between p and q. */
  predicate SeamSafe(p: Piece, q: Piece, key: string)
  {
    (p.Text? && p.text != [] && p.text[|p.text| - 1] !in key) ||
    (q.Text? && q.text != [] && q.text[0] !in key)
  }

  /** key occurs in a piece only as the placeholder for key itself. */
  predicate Clean(p: Piece, replacer: map<string, string>, key: string)
  {
    match p
    case Text(t) => !Contains(t, key)
    case Hole(k) => k in replacer && !Contains(TrimSpace(replacer[k]), key) && (k != key ==> !Contains(k, key))
  }

  /** Every piece is clean for key and no seam can be straddled by key. */
  predicate CleanFor(ps: Pieces, replacer: map<string, string>, key: string)
  {
    match ps
    case End => true
    case Then(p, rest) =>
      Clean(p, replacer, key) && (rest.Then? ==> SeamSafe(p, rest.head, key)) && CleanFor(rest, replacer, key)
  }

  /** A template fit for order-free substitution by replacer: the keys are
      non-empty, each occurs only as its own placeholder, no replacement
      value holds a key, and no key can straddle two pieces. */
  predicate Template(ps: Pieces, replacer: map<string, string>)
  {
    forall key :: key in replacer ==> key != "" && CleanFor(ps, replacer, key)
  }

  /** One round of the loop on a template: replacing key in the filled
      template fills the placeholders for key. */
  lemma {:induction false} FillStep(ps: Pieces, replacer: map<string, string>, done: set<string>, key: string)
    requires key != "" && key in replacer && CleanFor(ps, replacer, key)
    ensures Replace(Fill(ps, replacer, done), key, TrimSpace(replacer[key])) == Fill(ps, replacer, done + {key})
  {
    match ps
    case End =>
    case Then(p, rest) =>
      var v := TrimSpace(replacer[key]);
      var head := PieceText(p, replacer, done);
      var tail := Fill(rest, replacer, done);
      FillStep(rest, replacer, done, key);
      if rest.Then? {
        var q := rest.head;
        assert tail == PieceText(q, replacer, done) + Fill(rest.rest, replacer, done);
        if q.Text? && q.text != [] {
          assert tail[0] == q.text[0];
        }
      }
      assert SeamFree(head, tail, key);
      ReplaceConcat(head, tail, key, v);
      PieceStep(p, replacer, done, key);
  }

  /** Replacing key in one piece. */
  lemma PieceStep(p: Piece, replacer: map<string, string>, done: set<string>, key: string)
    requires key != "" && key in replacer && Clean(p, replacer, key)
    ensures Replace(PieceText(p, replacer, done), key, TrimSpace(replacer[key])) == PieceText(p, replacer, done + {key})
  {
    var v := TrimSpace(replacer[key]);
    if p == Hole(key) && key !in done {
      assert StartsWith(key, key);
      ReplaceMatch(key, key, v);
      assert key[|key|..] == "";
    } else {
      ReplaceAbsent(PieceText(p, replacer, done), key, v);
    }
  }

  /** Substituting the keys of order, one after the other, into a template
      fills exactly the placeholders of those keys. */
  lemma {:induction false} FillInOrder(ps: Pieces, replacer: map<string, string>, order: seq<string>)
    requires Template(ps, replacer)
    requires forall i :: 0 <= i < |order| ==> order[i] in replacer
    ensures ReplaceInOrder(Fill(ps, replacer, {}), order, replacer) == Fill(ps, replacer, set k | k in order)
    decreases |order|
  {
    if order == [] {
      assert (set k | k in order) == {};
    } else {
      var init := order[..|order| - 1];
      var last := order[|order| - 1];
      FillInOrder(ps, replacer, init);
      FillStep(ps, replacer, (set k | k in init), last);
      assert (set k | k in init) + {last} == set k | k in order by {
        assert order == init + [last];
      }
    }
  }

  /** MakeText on a template: whatever order the map is visited in, every
      placeholder is replaced by its trimmed value. */
  lemma MakeTextTemplate(ps: Pieces, replacer: map<string, string>, order: seq<string>)
    requires Template(ps, replacer) && Enumerates(order, replacer.Keys)
    ensures ReplaceInOrder(Fill(ps, replacer, {}), order, replacer) == Fill(ps, replacer, replacer.Keys)
  {
    FillInOrder(ps, replacer, order);
    assert (set k | k in order) == replacer.Keys;
  }

  // ---------------------------------------------------------------------
  // InputAndCheck

  /** What fmt.Scanln delivers: the word read, or the error it reports.
      Scanln fails on an empty line ("unexpected newline") and on a line of
      more than one word ("expected newline"), so a read that succeeds
      holds a Scannable word; Line("") and lines with white space are
      kept so that InputAndCheck is stated on every value. */
  datatype ReadLine = Line(text: string) | ReadFailed(msg: string)

  /** A word fmt.Scanln can store into one string: non-empty, with no
      white space. */
  predicate Scannable(text: string)
  {
    text != "" && forall i :: 0 <= i < |text| ==> !IsSpace(text[i])
  }

  /** The (string, error) pair InputAndCheck returns. */
  datatype Answer = Answer(value: string, err: Option<string>)

  /** InputAndCheck with the line read made a parameter: with a non-empty
      prompt the line read is the input (a read error is returned as is);
      an empty input takes the default when there is one; the validator
      then accepts the input or the call fails with "validation failed". */
  function InputAndCheck(prompt: string, defaultValue: string, validator: string -> bool, read: ReadLine): (r: Answer)
    ensures r.err.Some? ==> r.value == ""
  {
    if prompt != "" && read.ReadFailed? then Answer("", Some(read.msg))
    else
      var input := if prompt != "" then read.text else "";
      var input' := if input == "" && defaultValue != "" then defaultValue else input;
      if !validator(input') then Answer("", Some("validation failed"))
      else Answer(input', None)
  }

  /** An empty input is replaced by a non-empty default before it is
      validated. */
  lemma InputDefaults(prompt: string, defaultValue: string, validator: string -> bool, read: ReadLine)
    requires prompt == "" || read == Line("")
    requires defaultValue != ""
    ensures InputAndCheck(prompt, defaultValue, validator, read) ==
      if validator(defaultValue) then Answer(defaultValue, None) else Answer("", Some("validation failed"))
  {
  }

  /** A line that was read is returned unchanged when it is non-empty and
      the validator accepts it, and the call fails with "validation failed"
      exactly when the validator rejects it. */
  lemma InputValidated(prompt: string, defaultValue: string, validator: string -> bool, text: string)
    requires prompt != "" && text != ""
    ensures InputAndCheck(prompt, defaultValue, validator, Line(text)).err.None? <==> validator(text)
    ensures validator(text) ==> InputAndCheck(prompt, defaultValue, validator, Line(text)) == Answer(text, None)
    ensures !validator(text) ==> InputAndCheck(prompt, defaultValue, validator, Line(text)) == Answer("", Some("validation failed"))
  {
  }

  /** With a prompt, every read Scanln can deliver makes the default
      irrelevant: a word read is never empty, and a failed read returns
      its error. So the defaults the backend passes along with a prompt
      are never used. */
  lemma PromptIgnoresDefault(prompt: string, d1: string, d2: string, validator: string -> bool, read: ReadLine)
    requires prompt != "" && (read.Line? ==> Scannable(read.text))
    ensures InputAndCheck(prompt, d1, validator, read) == InputAndCheck(prompt, d2, validator, read)
    ensures read.Line? && validator(read.text) ==> InputAndCheck(prompt, d1, validator, read) == Answer(read.text, None)
  {
  }

  /** A read error is returned with an empty value, before the default or
      the validator are considered. */
  lemma InputReadError(prompt: string, defaultValue: string, validator: string -> bool, msg: string)
    requires prompt != ""
    ensures InputAndCheck(prompt, defaultValue, validator, ReadFailed(msg)) == Answer("", Some(msg))
  {
  }

  /** With an empty prompt nothing is read: the answer does not depend on
      the line, and it is the default (possibly "") if the validator accepts
      it. */
  lemma InputEmptyPrompt(defaultValue: string, validator: string -> bool, read: ReadLine, other: ReadLine)
    ensures InputAndCheck("", defaultValue, validator, read) == InputAndCheck("", defaultValue, validator, other)
    ensures InputAndCheck("", defaultValue, validator, read) ==
      if validator(defaultValue) then Answer(defaultValue, None) else Answer("", Some("validation failed"))
  {
  }
}
