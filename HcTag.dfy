/** The tag widget: a colour keyword picks a style class, and the widget's
    class attribute is the space-joined list of its base class, the caller's
    class, the colour class and the dashed and invisible classes. The
    stylesheet's class names are modelled as distinct constant strings. */
module HcTag {
  import opened Js

  const SpanTag := "spanTag"
  const SpanTagBlack := "spanTagBlack"
  const SpanTagBlue := "spanTagBlue"
  const SpanTagGreen := "spanTagGreen"
  const SpanTagGrey := "spanTagGrey"
  const SpanTagMagenta := "spanTagMagenta"
  const SpanTagRed := "spanTagRed"
  const SpanTagYellow := "spanTagYellow"
  const SpanTagDashed := "spanTagDashed"
  const SpanTagInvisible := "spanTagInvisible"

  /** The colour keywords the widget recognises, in lower case. */
  const Keywords: seq<string> := ["black", "blue", "green", "grey", "magenta", "red", "yellow"]

  /** The `switch` of `setTagColor` on the lower-cased keyword: a class,
      never containing a space, for the seven keywords and "" for any other. */
  function KeywordClass(keyword: string): (r: string)
    ensures r != "" <==> keyword in Keywords
    ensures ' ' !in r
  {
    if keyword == "black" then SpanTagBlack
    else if keyword == "blue" then SpanTagBlue
    else if keyword == "green" then SpanTagGreen
    else if keyword == "grey" then SpanTagGrey
    else if keyword == "magenta" then SpanTagMagenta
    else if keyword == "red" then SpanTagRed
    else if keyword == "yellow" then SpanTagYellow
    else ""
  }

  /** `setTagColor`: a class exactly when the lower-cased colour is a keyword. */
  function SetTagColor(color: string): (r: string)
    ensures r != "" <==> ToLower(color) in Keywords
  {
    KeywordClass(ToLower(color))
  }

  /** Only the lower-cased keyword matters. */
  lemma SetTagColorIgnoresCase(color: string)
    ensures SetTagColor(ToLower(color)) == SetTagColor(color)
  {
    ToLowerIdempotent(color);
  }

  lemma RedInAnyCase()
    ensures SetTagColor("RED") == SetTagColor("red") == SetTagColor("Red") == SpanTagRed
  {
    assert ToLower("RED") == "red";
    assert ToLower("red") == "red";
    assert ToLower("Red") == "red";
  }

  /** Each of the seven keywords has a class of its own; every other keyword
      quietly gets the empty class. */
  lemma SetTagColorClasses(color: string)
    ensures SetTagColor(color) != "" <==> ToLower(color) in Keywords
    ensures ToLower(color) !in Keywords ==> SetTagColor(color) == ""
    ensures forall i, j :: 0 <= i < j < |Keywords| ==> KeywordClass(Keywords[i]) != KeywordClass(Keywords[j])
  {
  }

  /** The widget's props; every optional prop is an `Option`. */
  datatype Props = Props(
    text: string,
    className: Option<string>,
    dashed: Option<bool>,
    color: Option<string>,
    closable: Option<bool>,
    visible: Option<bool>)

  /** `props.className ? props.className : ""`. */
  function OwnClass(p: Props): string {
    if TruthyString(p.className) then p.className.value else ""
  }

  /** `props?.color && setTagColor(props.color)`: `undefined` and "" pass through. */
  function ColorValue(p: Props): Value {
    match p.color
    case None => Undefined
    case Some(c) => if c == "" then Str(c) else Str(SetTagColor(c))
  }

  /** `props.dashed && styles.spanTagDashed`. */
  function DashedValue(p: Props): Value {
    match p.dashed
    case None => Undefined
    case Some(d) => if d then Str(SpanTagDashed) else Bool(false)
  }

  /** `props.visible === false && styles.spanTagInvisible`. */
  function VisibleValue(p: Props): Value {
    if p.visible == Some(false) then Str(SpanTagInvisible) else Bool(false)
  }

  /** The class attribute: the five values, each rendered as `join` renders
      it, joined with a space. It always starts with the base class and the
      caller's class (or ""), each followed by a space. */
  function ClassName(p: Props): (r: string)
    ensures var prefix := SpanTag + " " + OwnClass(p) + " ";
      |prefix| <= |r| && r[..|prefix|] == prefix
  {
    var pieces := ClassPieces(p);
    JoinFivePrefix(pieces[0], pieces[1], pieces[2], pieces[3], pieces[4], ' ');
    assert pieces == [pieces[0], pieces[1], pieces[2], pieces[3], pieces[4]];
    Join(pieces, ' ')
  }

  /** The five pieces of the class attribute, each as `join` renders it. */
  function ClassPieces(p: Props): seq<string> {
    [SpanTag, OwnClass(p), JoinText(ColorValue(p)), JoinText(DashedValue(p)), JoinText(VisibleValue(p))]
  }

  /** When the caller's class has no space, splitting the class attribute at
      spaces gives back its five pieces. */
  lemma ClassNameSplit(p: Props)
    requires p.className.Some? ==> ' ' !in p.className.value
    ensures Split(ClassName(p), ' ') == ClassPieces(p)
  {
    var parts := ClassPieces(p);
    assert ' ' !in parts[0];
    assert ' ' !in parts[1];
    assert ' ' !in parts[2];
    assert ' ' !in parts[3];
    assert ' ' !in parts[4];
    SplitJoin(parts, ' ');
  }

  /** Whatever the caller's class, splitting the class attribute at spaces
      gives the base class, the pieces of the caller's class, then the colour
      class, the dashed token and the visible token. */
  lemma ClassNameSplitAny(p: Props)
    ensures Split(ClassName(p), ' ') ==
      [SpanTag] + Split(OwnClass(p), ' ') + [JoinText(ColorValue(p)), JoinText(DashedValue(p)), JoinText(VisibleValue(p))]
  {
    var parts := ClassPieces(p);
    assert parts == [parts[0], parts[1], parts[2], parts[3], parts[4]];
    JoinFiveSplit(parts[0], parts[1], parts[2], parts[3], parts[4], ' ');
  }

  /** The class attribute read back token by token, for any caller class:
      the base class first; then the caller's class, one token per
      space-separated piece ("" when it is absent); then the colour class or
      "", and for `dashed` the dashed class, the word "false" or "" (for
      true, false, undefined), and last, for `visible`, the invisible class
      only when it is false and the word "false" otherwise. Without a space
      in the caller's class there are exactly five tokens. */
  lemma ClassNameTokens(p: Props)
    ensures var t := Split(ClassName(p), ' ');
      var own := Split(OwnClass(p), ' ');
      && |t| == |own| + 4
      && t[0] == SpanTag
      && t[1..|t| - 3] == own
      && Join(own, ' ') == OwnClass(p)
      && ((p.className.Some? ==> ' ' !in p.className.value) ==> |t| == 5 && t[1] == OwnClass(p))
    ensures var t := Split(ClassName(p), ' ');
      && |t| >= 5
      && t[|t| - 3] == (if TruthyString(p.color) then SetTagColor(p.color.value) else "")
      && (t[|t| - 2] == SpanTagDashed <==> p.dashed == Some(true))
      && (t[|t| - 2] == "false" <==> p.dashed == Some(false))
      && (t[|t| - 2] == "" <==> p.dashed.None?)
      && (t[|t| - 1] == SpanTagInvisible <==> p.visible == Some(false))
      && (t[|t| - 1] == "false" <==> p.visible != Some(false))
  {
    ClassNameSplitAny(p);
    var own := Split(OwnClass(p), ' ');
    var t := Split(ClassName(p), ' ');
    assert t[1..|t| - 3] == own;
    JoinSplit(OwnClass(p), ' ');
    if p.className.Some? ==> ' ' !in p.className.value {
      SplitNoSeparator(OwnClass(p), ' ');
    }
  }

  /** The close icon shows unless `closable` is false; undefined counts as closable. */
  function ShowsCloseIcon(p: Props): (r: bool)
    ensures r <==> p.closable != Some(false)
  {
    match p.closable
    case Some(b) => b
    case None => true
  }
}
