/**
 * The editor state of the Playroom component (src/Playroom/Playroom.js): the
 * live `code`, the last code handed to the preview (`renderCode`), the
 * `codeReady` flag and the editor `key`, together with the editor gutter the
 * component writes its error markers into.
 *
 * The JSX parser (acorn-jsx) and the code formatter (prettier) are libraries;
 * they are fixed functions given to the component when it is created.
 */
module Playroom {
  import opened Wrappers
  import ErrorLine

  /** What the parser does with a text: accept it, or throw an error with a message. */
  datatype ParseOutcome = Parsed | Failed(message: string)

  /** The text that is parsed: the fragment wrapped in one root element. */
  function Wrap(code: string): (w: string)
    ensures |w| == |code| + 11
    ensures w[..5] == "<div>" && w[|w| - 6..] == "</div>"
    ensures w[5..|w| - 6] == code
  {
    "<div>" + code + "</div>"
  }

  /** The gutter after validating a text whose wrapped form had outcome `outcome`. */
  function MarkersAfter(outcome: ParseOutcome): (gutter: map<nat, string>)
    ensures outcome.Parsed? ==> gutter == map[]
    ensures |gutter| <= 1
    ensures outcome.Failed? ==>
              forall line :: line in gutter <==> ErrorLine.MarkerLine(outcome.message) == Some(line)
    ensures outcome.Failed? ==> forall line :: line in gutter ==> gutter[line] == outcome.message
  {
    match outcome
    case Parsed => map[]
    case Failed(message) =>
      match ErrorLine.MarkerLine(message)
      case None => map[]
      case Some(line) => map[line := message]
  }

  /**
   * The code the preview shows after loading `initial` and validating each of
   * `attempts` in turn: the last attempt that parsed, or `initial` if none did.
   */
  ghost function LastGood(parse: string -> ParseOutcome, initial: string, attempts: seq<string>): string
  {
    if |attempts| == 0 then initial
    else if parse(Wrap(attempts[|attempts| - 1])).Parsed? then attempts[|attempts| - 1]
    else LastGood(parse, initial, attempts[..|attempts| - 1])
  }

  /**
   * The preview shows the initial code or an attempt that parsed; it is the
   * latest attempt that parsed, and the initial code only if none did.
   */
  lemma {:induction false} LastGoodSpec(parse: string -> ParseOutcome, initial: string, attempts: seq<string>)
    ensures var r := LastGood(parse, initial, attempts);
            && (r == initial || (r in attempts && parse(Wrap(r)).Parsed?))
            && ((forall k :: 0 <= k < |attempts| ==> parse(Wrap(attempts[k])).Failed?) ==> r == initial)
            && (forall k :: 0 <= k < |attempts| && parse(Wrap(attempts[k])).Parsed? &&
                  (forall k' :: k < k' < |attempts| ==> parse(Wrap(attempts[k'])).Failed?)
                  ==> r == attempts[k])
  {
    if |attempts| > 0 {
      var init := attempts[..|attempts| - 1];
      LastGoodSpec(parse, initial, init);
      assert forall k :: 0 <= k < |init| ==> init[k] == attempts[k];
    }
  }

  lemma LastGoodAppend(parse: string -> ParseOutcome, initial: string, attempts: seq<string>, c: string)
    ensures LastGood(parse, initial, attempts + [c])
         == if parse(Wrap(c)).Parsed? then c else LastGood(parse, initial, attempts)
  {
    assert (attempts + [c])[..|attempts|] == attempts;
  }

  /** `format(str)`: the formatter's output, or `str` itself when the formatter throws. */
  function Format(formatter: string -> Option<string>, str: string): (r: string)
    ensures formatter(str).Some? ==> r == formatter(str).value
    ensures formatter(str).None? ==> r == str
  {
    match formatter(str)
    case Some(formatted) => formatted
    case None => str
  }

  /** Formatting twice is formatting once, when the formatter leaves its own output alone. */
  lemma FormatIdempotent(formatter: string -> Option<string>, str: string)
    requires forall s :: formatter(s).Some? ==> formatter(formatter(s).value) == Some(formatter(s).value)
    ensures Format(formatter, Format(formatter, str)) == Format(formatter, str)
  {
  }

  class Playroom {
    /** The JSX parser, applied to the wrapped code. */
    const parse: string -> ParseOutcome
    /** The code formatter; None when it throws. */
    const formatter: string -> Option<string>

    var codeReady: bool
    var code: Option<string>
    var renderCode: Option<string>
    var key: int
    /** The editor gutter: error markers by 0-based line, with their tooltip text. */
    var gutter: map<nat, string>
    /** Every value handed to the `updateCode` callback of the component's owner. */
    var persisted: seq<string>

    /** The code that was loaded, and the texts validated since. */
    ghost var loaded: string
    ghost var attempts: seq<string>

    /**
     * Before loading there is no code; once loaded, the preview shows the
     * loaded code or the latest validated text that parsed.
     */
    ghost predicate Valid()
      reads this
    {
      && (!codeReady ==> code == None && renderCode == None)
      && (codeReady ==> code.Some? && renderCode == Some(LastGood(parse, loaded, attempts)))
    }

    constructor (parse: string -> ParseOutcome, formatter: string -> Option<string>)
      ensures Valid()
      ensures this.parse == parse && this.formatter == formatter
      ensures !codeReady && code == None && renderCode == None && key == 0
      ensures gutter == map[] && persisted == []
    {
      this.parse := parse;
      this.formatter := formatter;
      codeReady := false;
      code := None;
      renderCode := None;
      key := 0;
      gutter := map[];
      persisted := [];
      loaded := "";
      attempts := [];
    }

    /** `initialiseCode`: the loaded code becomes both the live and the rendered code, unvalidated. */
    method InitialiseCode(c: string)
      requires Valid()
      modifies this`codeReady, this`code, this`renderCode, this`loaded, this`attempts
      ensures Valid()
      ensures codeReady && code == Some(c) && renderCode == Some(c)
      ensures loaded == c && attempts == []
    {
      codeReady := true;
      code := Some(c);
      renderCode := Some(c);
      loaded := c;
      attempts := [];
    }

    /**
     * `validateCode`: clear the gutter, then parse the wrapped code.  On
     * success the code becomes the rendered code; on failure the rendered
     * code stays and a marker goes on the line the message names, if any.
     */
    method ValidateCode(c: string)
      requires Valid() && codeReady
      modifies this`gutter, this`renderCode, this`attempts
      ensures Valid()
      ensures renderCode == if parse(Wrap(c)).Parsed? then Some(c) else old(renderCode)
      ensures gutter == MarkersAfter(parse(Wrap(c)))
      ensures attempts == old(attempts) + [c]
    {
      gutter := map[];
      attempts := attempts + [c];
      LastGoodAppend(parse, loaded, old(attempts), c);
      var outcome := parse(Wrap(c));
      match outcome {
        case Parsed =>
          renderCode := Some(c);
        case Failed(message) =>
          var lineNumber := ErrorLine.LineNumber(message);
          if lineNumber.None? || lineNumber.value == 0 {
            return;
          }
          gutter := gutter[lineNumber.value - 1 := message];
      }
    }

    /** `updateCode`: the new text always becomes the live code, is handed on, and is validated. */
    method UpdateCode(c: string)
      requires Valid() && codeReady
      modifies this`code, this`persisted, this`gutter, this`renderCode, this`attempts
      ensures Valid()
      ensures code == Some(c)
      ensures persisted == old(persisted) + [c]
      ensures renderCode == if parse(Wrap(c)).Parsed? then Some(c) else old(renderCode)
      ensures gutter == MarkersAfter(parse(Wrap(c)))
      ensures attempts == old(attempts) + [c]
    {
      code := Some(c);
      persisted := persisted + [c];
      ValidateCode(c);
    }

    /** What happens once `getCode` delivers: initialise, then validate the loaded code. */
    method CodeLoaded(c: string)
      requires Valid()
      modifies this`codeReady, this`code, this`renderCode, this`loaded, this`attempts, this`gutter
      ensures Valid()
      ensures codeReady && code == Some(c) && renderCode == Some(c)
      ensures gutter == MarkersAfter(parse(Wrap(c)))
    {
      InitialiseCode(c);
      ValidateCode(c);
    }

    /** The format shortcut: the live code is replaced by its formatted form, without validation. */
    method FormatShortcut()
      requires Valid()
      modifies this`code
      ensures Valid()
      ensures code == if old(code).Some? then Some(Format(formatter, old(code).value)) else None
    {
      if code.Some? {
        code := Some(Format(formatter, code.value));
      }
    }
  }

  /**
   * A mismatched tag typed after a good load: the preview keeps the loaded
   * code and the marker goes on the first line.
   */
  method MismatchedTagScenario() returns (preview: Option<string>, markers: map<nat, string>)
    ensures preview == Some("<b/>")
    ensures markers == map[0 := "Unexpected token (1:17)"]
  {
    var p := new Playroom(
      s => if s == Wrap("<div><span></div>") then Failed("Unexpected token (1:17)") else Parsed,
      s => None);
    p.CodeLoaded("<b/>");
    p.UpdateCode("<div><span></div>");
    ErrorLine.MismatchedTagMessage();
    preview, markers := p.renderCode, p.gutter;
  }

  /** Loaded code that does not parse is still what the preview is given. */
  method UnparsedLoadScenario() returns (preview: Option<string>, parses: bool)
    ensures preview == Some("<div>") && !parses
  {
    var p := new Playroom(s => Failed("Unexpected token"), s => None);
    p.CodeLoaded("<div>");
    preview, parses := p.renderCode, p.parse(Wrap("<div>")).Parsed?;
  }
}
