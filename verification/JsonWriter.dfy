/** The streaming JSON printer: every value is followed by a comma, and the comma behind the last
    value of a container is overwritten when the container is closed. */
module JsonWriter {
  import opened Json
  import opened OrderedMap

  // --- the string stream -------------------------------------------------------------------

  /** A string stream: its text, the position of the next write and whether no operation failed.
      Output to a failed stream is dropped. */
  datatype Stream = Stream(text: string, put: nat, good: bool) {
    predicate Valid() {
      put <= |text|
    }

    function Out(s: string): (t: Stream)
      requires Valid()
      ensures t.Valid()
    {
      if !good then this
      else if put + |s| <= |text| then Stream(text[..put] + s + text[put + |s|..], put + |s|, true)
      else Stream(text[..put] + s, put + |s|, true)
    }

    /** Reading the last character skips white space, so it fails behind white space as it does on
        an empty stream. */
    predicate CanReadLast() {
      good && text != "" && !IsSpace(text[|text| - 1]) && text[|text| - 1] !in {'\U{000B}', '\U{000C}'}
    }

    /** Moves back over a trailing comma. */
    function BeforeComma(): (t: Stream)
      requires Valid()
      ensures t.Valid()
    {
      if !CanReadLast() then this.(good := false)
      else if text[|text| - 1] == ',' then this.(put := |text| - 1)
      else this
    }
  }

  const EMPTY := Stream("", 0, true)

  /** The step back fails exactly on a failed or empty stream and behind white space; it moves only
      over a comma and never changes the text. */
  lemma StepBackIs(w: Stream)
    requires w.Valid()
    ensures var t := w.BeforeComma();
      && t.text == w.text
      && (t.good <==> w.good && w.text != "" && w.text[|w.text| - 1] as int !in {0x09, 0x0A, 0x0B, 0x0C, 0x0D, 0x20})
      && t.put == if t.good && w.text[|w.text| - 1] == ',' then |w.text| - 1 else w.put
  {
  }

  /** Output replaces what stands at the position and goes on behind the end; a failed stream drops
      it. */
  lemma OutIs(w: Stream, s: string)
    requires w.Valid()
    ensures var t := w.Out(s);
      && (!w.good ==> t == w)
      && (w.good ==>
            && t.good && t.put == w.put + |s| && |t.text| == (if t.put > |w.text| then t.put else |w.text|)
            && t.text[..w.put] == w.text[..w.put] && t.text[w.put..t.put] == s
            && (t.put < |w.text| ==> t.text[t.put..] == w.text[t.put..]))
  {
  }

  datatype Call =
    | PushObject
    | PopObject
    | PushArray
    | PopArray
    | Key(name: string)
    | NumberCall(token: string)
    | StringCall(s: string)
    | NotFinite

  /** What a call prints. Numbers arrive as the token the stream formats them to; a float that is
      infinite or not a number prints as null. */
  function Print(w: Stream, c: Call): (t: Stream)
    requires w.Valid()
    ensures t.Valid()
  {
    match c
    case PushObject => w.Out("{")
    case PopObject => w.BeforeComma().Out("},")
    case PushArray => w.Out("[")
    case PopArray => w.BeforeComma().Out("],")
    case Key(name) => w.Out("\"").Out(name).Out("\":")
    case NumberCall(token) => w.Out(token).Out(",")
    case StringCall(s) => w.Out("\"").Out(s).Out("\"").Out(",")
    case NotFinite => w.Out("null").Out(",")
  }

  function PrintAll(w: Stream, calls: seq<Call>): (t: Stream)
    requires w.Valid()
    ensures t.Valid()
    decreases |calls|
  {
    if calls == [] then w else PrintAll(Print(w, calls[0]), calls[1..])
  }

  /** The terminator replaces a trailing comma. */
  function Dump(w: Stream): (t: Stream)
    requires w.Valid()
    ensures t.Valid()
  {
    if w.CanReadLast() && w.text[|w.text| - 1] == ',' then w.BeforeComma().Out("\0") else w.BeforeComma()
  }

  /** The dump ends in a terminator in place of a trailing comma; any other text stays as it is. */
  lemma DumpIs(w: Stream)
    requires w.Valid()
    ensures Dump(w).text
         == if w.good && w.text != "" && w.text[|w.text| - 1] == ',' then w.text[..|w.text| - 1] + "\0" else w.text
  {
  }

  // --- what the calls describe ----------------------------------------------------------------

  /** A container that is still open; a member is open between its key and its value. */
  datatype Frame =
    | InArray(items: seq<Value>)
    | InObject(members: seq<(string, Value)>)
    | InMember(members: seq<(string, Value)>, name: string)

  datatype Tree = Open(stack: seq<Frame>) | Closed(v: Value)

  /** Whether a value may come next. */
  predicate TakesValue(stack: seq<Frame>) {
    stack == [] || !stack[|stack| - 1].InObject?
  }

  /** A value has been completed. */
  function Complete(stack: seq<Frame>, v: Value): Tree
    requires TakesValue(stack)
  {
    if stack == [] then Closed(v)
    else
      var n := |stack| - 1;
      match stack[n]
      case InArray(items) => Open(stack[..n] + [InArray(items + [v])])
      case InMember(members, name) => Open(stack[..n] + [InObject(members + [(name, v)])])
  }

  /** The tree behind a call; nothing for a call that is not well nested. */
  function Grow(t: Tree, c: Call): Option<Tree> {
    match t
    case Closed(_) => None
    case Open(stack) =>
      var n := |stack| - 1;
      match c
      case PushObject => if TakesValue(stack) then Some(Open(stack + [InObject([])])) else None
      case PushArray => if TakesValue(stack) then Some(Open(stack + [InArray([])])) else None
      case PopObject =>
        if stack != [] && stack[n].InObject? && TakesValue(stack[..n])
        then Some(Complete(stack[..n], Obj(stack[n].members))) else None
      case PopArray =>
        if stack != [] && stack[n].InArray? && TakesValue(stack[..n])
        then Some(Complete(stack[..n], Arr(stack[n].items))) else None
      case Key(name) =>
        if stack != [] && stack[n].InObject?
        then Some(Open(stack[..n] + [InMember(stack[n].members, name)])) else None
      case NumberCall(token) => if TakesValue(stack) then Some(Complete(stack, Num(token))) else None
      case StringCall(s) => if TakesValue(stack) then Some(Complete(stack, Str(s))) else None
      case NotFinite => if TakesValue(stack) then Some(Complete(stack, Null)) else None
  }

  function GrowAll(t: Tree, calls: seq<Call>): Option<Tree>
    decreases |calls|
  {
    if calls == [] then Some(t)
    else
      var next := Grow(t, calls[0]);
      if next.Some? then GrowAll(next.value, calls[1..]) else None
  }

  /** Strings and keys need no escapes, number tokens follow the grammar. */
  predicate Plain(c: Call) {
    match c
    case Key(name) => IsClean(name)
    case NumberCall(token) => IsNumber(token)
    case StringCall(s) => IsClean(s)
    case _ => true
  }

  /** Said without the parser: no control character, quotation mark or backslash, and numbers after
      the grammar. */
  lemma PlainIs(c: Call)
    ensures Plain(c) <==>
      match c
      case Key(name) => forall i :: 0 <= i < |name| ==> name[i] as int >= 0x20 && name[i] as int !in {0x22, 0x5C}
      case NumberCall(token) => NumberText(token)
      case StringCall(s) => forall i :: 0 <= i < |s| ==> s[i] as int >= 0x20 && s[i] as int !in {0x22, 0x5C}
      case _ => true
  {
    hide IsNumber, NumberText;
    match c
    case Key(name) => CleanIs(name);
    case NumberCall(token) => NumberIff(token);
    case StringCall(s) => CleanIs(s);
    case _ =>
  }

  lemma CleanIs(s: string)
    ensures IsClean(s) <==> forall i :: 0 <= i < |s| ==> s[i] as int >= 0x20 && s[i] as int !in {0x22, 0x5C}
  {
    forall i | 0 <= i < |s|
      ensures IsUnescaped(s[i]) <==> s[i] as int >= 0x20 && s[i] as int !in {0x22, 0x5C}
    {
      CharactersAre(s[i]);
    }
  }

  // --- the stream holds the text of the open tree ------------------------------------------------

  function ItemsWithCommas(items: seq<Value>): string {
    if items == [] then "" else Text(items[0]) + "," + ItemsWithCommas(items[1..])
  }

  function MembersWithCommas(members: seq<(string, Value)>): string {
    if members == [] then "" else MemberText(members[0]) + "," + MembersWithCommas(members[1..])
  }

  function FrameText(f: Frame): string {
    match f
    case InArray(items) => "[" + ItemsWithCommas(items)
    case InObject(members) => "{" + MembersWithCommas(members)
    case InMember(members, name) => "{" + MembersWithCommas(members) + (Quoted(name) + ":")
  }

  function StackText(stack: seq<Frame>): string {
    if stack == [] then "" else StackText(stack[..|stack| - 1]) + FrameText(stack[|stack| - 1])
  }

  function TreeText(t: Tree): string {
    match t
    case Open(stack) => StackText(stack)
    case Closed(v) => Text(v) + ","
  }

  /** A good stream that was only appended to. */
  function Full(s: string): Stream {
    Stream(s, |s|, true)
  }

  lemma OutAppends(s: string, x: string)
    ensures Full(s).Out(x) == Full(s + x)
  {
    if x == "" {
      assert s[..|s|] + x + s[|s|..] == s + x;
    }
  }

  /** Overwriting the last character. */
  lemma OutReplaces(s: string, c: char, x: string)
    requires x != ""
    ensures Stream(s + [c], |s|, true).Out(x) == Full(s + x)
  {
    assert (s + [c])[..|s|] == s;
    if |x| == 1 {
      assert (s + [c])[|s| + 1..] == "";
    }
  }

  lemma {:induction false} ItemsCommaRepair(items: seq<Value>)
    requires items != []
    ensures ItemsWithCommas(items) == ItemsText(items) + ","
  {
    hide Text;
    if |items| == 1 {
      assert items[1..] == [];
    } else {
      ItemsCommaRepair(items[1..]);
    }
  }

  lemma {:induction false} MembersCommaRepair(members: seq<(string, Value)>)
    requires members != []
    ensures MembersWithCommas(members) == MembersText(members) + ","
  {
    hide MemberText;
    if |members| == 1 {
      assert members[1..] == [];
    } else {
      MembersCommaRepair(members[1..]);
    }
  }

  lemma {:induction false} ItemsAppend(items: seq<Value>, v: Value)
    ensures ItemsWithCommas(items + [v]) == ItemsWithCommas(items) + (Text(v) + ",")
  {
    hide Text;
    if items == [] {
      assert [] + [v] == [v] && [v][1..] == [];
    } else {
      assert (items + [v])[1..] == items[1..] + [v];
      ItemsAppend(items[1..], v);
    }
  }

  lemma {:induction false} MembersAppend(members: seq<(string, Value)>, m: (string, Value))
    ensures MembersWithCommas(members + [m]) == MembersWithCommas(members) + (MemberText(m) + ",")
  {
    hide MemberText;
    if members == [] {
      assert [] + [m] == [m] && [m][1..] == [];
    } else {
      assert (members + [m])[1..] == members[1..] + [m];
      MembersAppend(members[1..], m);
    }
  }

  lemma StackAppend(stack: seq<Frame>, f: Frame)
    ensures StackText(stack + [f]) == StackText(stack) + FrameText(f)
  {
    assert (stack + [f])[..|stack|] == stack;
  }

  /** A completed value appears behind the text of what encloses it, with a comma. */
  lemma CompleteText(stack: seq<Frame>, v: Value)
    requires TakesValue(stack)
    ensures TreeText(Complete(stack, v)) == StackText(stack) + (Text(v) + ",")
  {
    hide Text, Quoted, StackText, ItemsWithCommas, MembersWithCommas;
    if stack == [] {
      assert StackText([]) == "" by {
        EmptyStack();
      }
    } else {
      var n := |stack| - 1;
      var base := StackText(stack[..n]);
      assert stack[..n] + [stack[n]] == stack;
      StackAppend(stack[..n], stack[n]);
      match stack[n]
      case InArray(items) =>
        ItemsAppend(items, v);
        StackAppend(stack[..n], InArray(items + [v]));
        Regroup(base, "[", ItemsWithCommas(items), Text(v) + ",");
      case InMember(members, name) =>
        MembersAppend(members, (name, v));
        StackAppend(stack[..n], InObject(members + [(name, v)]));
        Regroup(base, "{", MembersWithCommas(members), Quoted(name) + ":" + Text(v) + ",");
        assert Quoted(name) + ":" + Text(v) + "," == (Quoted(name) + ":") + (Text(v) + ",");
        Regroup(base + ("{" + MembersWithCommas(members)), Quoted(name) + ":", Text(v) + ",", "");
      case InObject(_) => assert false;
    }
  }

  lemma EmptyStack()
    ensures StackText([]) == ""
  {
  }

  lemma Regroup(a: string, b: string, c: string, d: string)
    ensures a + (b + (c + d)) == a + (b + c) + d == a + b + c + d
  {
  }

  /** Closing an array repairs the comma. */
  lemma PopArrayText(base: string, items: seq<Value>)
    ensures Full(base + FrameText(InArray(items))).BeforeComma().Out("],")
            == Full(base + (Text(Arr(items)) + ","))
  {
    hide ItemsText, ItemsWithCommas;
    var s := base + FrameText(InArray(items));
    if items == [] {
      EmptyTexts();
      assert s == base + "[";
      OutAppends(s, "],");
      assert s + "]," == base + ("[" + "" + "]" + ",");
    } else {
      ItemsCommaRepair(items);
      var t := base + ("[" + ItemsText(items));
      assert s == t + ",";
      OutReplaces(t, ',', "],");
      assert t + "]," == base + ("[" + ItemsText(items) + "]" + ",");
    }
  }

  lemma EmptyTexts()
    ensures ItemsText([]) == "" && MembersText([]) == "" && ItemsWithCommas([]) == "" && MembersWithCommas([]) == ""
  {
  }

  /** Closing an object repairs the comma. */
  lemma PopObjectText(base: string, members: seq<(string, Value)>)
    ensures Full(base + FrameText(InObject(members))).BeforeComma().Out("},")
            == Full(base + (Text(Obj(members)) + ","))
  {
    hide MembersText, MembersWithCommas;
    var s := base + FrameText(InObject(members));
    if members == [] {
      EmptyTexts();
      assert s == base + "{";
      OutAppends(s, "},");
      assert s + "}," == base + ("{" + "" + "}" + ",");
    } else {
      MembersCommaRepair(members);
      var t := base + ("{" + MembersText(members));
      assert s == t + ",";
      OutReplaces(t, ',', "},");
      assert t + "}," == base + ("{" + MembersText(members) + "}" + ",");
    }
  }

  /** A scalar call at a place that takes a value. */
  lemma ScalarFollows(stack: seq<Frame>, c: Call)
    requires TakesValue(stack) && (c.NumberCall? || c.StringCall? || c.NotFinite?)
    ensures Print(Full(StackText(stack)), c) == Full(TreeText(Grow(Open(stack), c).value))
  {
    hide StackText, Complete, TreeText, Stream.Out;
    var s := StackText(stack);
    match c
    case NumberCall(token) =>
      CompleteText(stack, Num(token));
      OutAppends(s, token);
      OutAppends(s + token, ",");
      assert s + token + "," == s + (token + ",");
    case StringCall(x) =>
      CompleteText(stack, Str(x));
      OutAppends(s, "\"");
      OutAppends(s + "\"", x);
      OutAppends(s + "\"" + x, "\"");
      OutAppends(s + "\"" + x + "\"", ",");
      assert s + "\"" + x + "\"" + "," == s + (Quoted(x) + ",");
    case NotFinite =>
      CompleteText(stack, Null);
      OutAppends(s, "null");
      OutAppends(s + "null", ",");
      assert s + "null" + "," == s + ("null" + ",");
  }

  /** Every well-nested call keeps the stream equal to the text of the open tree. */
  lemma PrintFollows(t: Tree, c: Call)
    requires Grow(t, c).Some?
    ensures Print(Full(TreeText(t)), c) == Full(TreeText(Grow(t, c).value))
  {
    hide StackText, FrameText, Complete, Text, Stream.Out, Stream.BeforeComma;
    var stack := t.stack;
    var s := StackText(stack);
    var n := |stack| - 1;
    if stack != [] {
      StackAppend(stack[..n], stack[n]);
      assert stack[..n] + [stack[n]] == stack;
    }
    match c
    case PushObject =>
      OpenTexts();
      OutAppends(s, "{");
      StackAppend(stack, InObject([]));
    case PushArray =>
      OpenTexts();
      OutAppends(s, "[");
      StackAppend(stack, InArray([]));
    case PopObject =>
      PopObjectText(StackText(stack[..n]), stack[n].members);
      CompleteText(stack[..n], Obj(stack[n].members));
    case PopArray =>
      PopArrayText(StackText(stack[..n]), stack[n].items);
      CompleteText(stack[..n], Arr(stack[n].items));
    case Key(name) =>
      StackAppend(stack[..n], InMember(stack[n].members, name));
      OutAppends(s, "\"");
      OutAppends(s + "\"", name);
      OutAppends(s + "\"" + name, "\":");
      KeyText(StackText(stack[..n]), stack[n].members, name);
    case _ => ScalarFollows(stack, c);
  }

  lemma OpenTexts()
    ensures FrameText(InObject([])) == "{" && FrameText(InArray([])) == "["
  {
    EmptyTexts();
  }

  lemma KeyText(base: string, members: seq<(string, Value)>, name: string)
    ensures base + FrameText(InObject(members)) + "\"" + name + "\":" == base + FrameText(InMember(members, name))
  {
    hide MembersWithCommas;
    var front := "{" + MembersWithCommas(members);
    assert "\"" + name + "\":" == "\"" + name + "\"" + ":";
    Regrouped(base, front, "\"", name, "\":");
  }

  lemma Regrouped(a: string, b: string, c: string, d: string, e: string)
    ensures a + b + c + d + e == a + (b + (c + d + e))
  {
  }

  lemma {:induction false} PrintAllFollows(t: Tree, calls: seq<Call>)
    requires GrowAll(t, calls).Some?
    ensures PrintAll(Full(TreeText(t)), calls) == Full(TreeText(GrowAll(t, calls).value))
    decreases |calls|
  {
    hide Print, Grow, TreeText;
    if calls != [] {
      PrintFollows(t, calls[0]);
      PrintAllFollows(Grow(t, calls[0]).value, calls[1..]);
    }
  }

  // --- printable trees ------------------------------------------------------------------------------

  ghost predicate PrintableMembers(members: seq<(string, Value)>) {
    forall i :: 0 <= i < |members| ==> IsClean(members[i].0) && Printable(members[i].1)
  }

  ghost predicate PrintableFrame(f: Frame) {
    match f
    case InArray(items) => forall i :: 0 <= i < |items| ==> Printable(items[i])
    case InObject(members) => PrintableMembers(members)
    case InMember(members, name) => PrintableMembers(members) && IsClean(name)
  }

  ghost predicate PrintableTree(t: Tree) {
    match t
    case Open(stack) => forall i :: 0 <= i < |stack| ==> PrintableFrame(stack[i])
    case Closed(v) => Printable(v)
  }

  lemma FramePrintable(f: Frame, v: Value)
    requires PrintableFrame(f) && Printable(v)
    ensures f.InArray? ==> PrintableFrame(InArray(f.items + [v]))
    ensures f.InMember? ==> PrintableFrame(InObject(f.members + [(f.name, v)]))
  {
    hide Printable, IsClean;
  }

  lemma CompletePrintable(stack: seq<Frame>, v: Value)
    requires TakesValue(stack) && PrintableTree(Open(stack)) && Printable(v)
    ensures PrintableTree(Complete(stack, v))
  {
    hide Printable, PrintableFrame;
    if stack != [] {
      var n := |stack| - 1;
      assert PrintableFrame(stack[n]);
      FramePrintable(stack[n], v);
    }
  }

  lemma TopPrintable(stack: seq<Frame>, f: Frame)
    requires PrintableTree(Open(stack)) && PrintableFrame(f)
    ensures PrintableTree(Open(stack + [f]))
    ensures stack != [] ==> PrintableFrame(stack[|stack| - 1]) && PrintableTree(Open(stack[..|stack| - 1]))
  {
    hide PrintableFrame;
  }

  lemma GrowPrintable(t: Tree, c: Call)
    requires PrintableTree(t) && Plain(c) && Grow(t, c).Some?
    ensures PrintableTree(Grow(t, c).value)
  {
    hide IsClean, IsNumber, PrintableTree, Complete;
    var stack := t.stack;
    var n := |stack| - 1;
    TopPrintable(stack, InArray([]));
    match c
    case PushObject => TopPrintable(stack, InObject([]));
    case PushArray =>
    case PopObject => CompletePrintable(stack[..n], Obj(stack[n].members));
    case PopArray => CompletePrintable(stack[..n], Arr(stack[n].items));
    case Key(name) => TopPrintable(stack[..n], InMember(stack[n].members, name));
    case NumberCall(token) => CompletePrintable(stack, Num(token));
    case StringCall(s) => CompletePrintable(stack, Str(s));
    case NotFinite => CompletePrintable(stack, Null);
  }

  lemma {:induction false} GrowAllPrintable(t: Tree, calls: seq<Call>)
    requires PrintableTree(t) && (forall i :: 0 <= i < |calls| ==> Plain(calls[i])) && GrowAll(t, calls).Some?
    ensures PrintableTree(GrowAll(t, calls).value)
    decreases |calls|
  {
    hide PrintableTree, Plain, Grow;
    if calls != [] {
      GrowPrintable(t, calls[0]);
      GrowAllPrintable(Grow(t, calls[0]).value, calls[1..]);
    }
  }

  /** What is not plain stays in the tree. */
  lemma GrowOnlyPrintable(t: Tree, c: Call)
    requires Grow(t, c).Some? && PrintableTree(Grow(t, c).value)
    ensures PrintableTree(t) && Plain(c)
  {
    hide IsClean, IsNumber;
    var stack := t.stack;
    var n := |stack| - 1;
    if TakesValue(stack) && stack != [] && !c.PopArray? && !c.PopObject? && !c.Key? {
      GrownFrames(stack, c);
    }
    if c.PopArray? || c.PopObject? {
      PoppedFrames(stack, c);
    }
    if c.Key? {
      KeyedFrames(stack, c.name);
    }
  }

  lemma GrownFrames(stack: seq<Frame>, c: Call)
    requires TakesValue(stack) && stack != [] && !c.PopArray? && !c.PopObject? && !c.Key?
    requires PrintableTree(Grow(Open(stack), c).value)
    ensures PrintableTree(Open(stack)) && Plain(c)
  {
    hide IsClean, IsNumber;
    var after := Grow(Open(stack), c).value.stack;
    var n := |stack| - 1;
    forall i | 0 <= i < |stack|
      ensures PrintableFrame(stack[i])
    {
      assert PrintableFrame(after[i]);
      if i == n && !c.PushArray? && !c.PushObject? {
        LastFrame(stack[n], after[n]);
      }
    }
    assert PrintableFrame(after[n]);
    if c.NumberCall? {
      LastValue(stack[n], after[n], Num(c.token));
    }
    if c.StringCall? {
      LastValue(stack[n], after[n], Str(c.s));
    }
  }

  /** A frame that has taken one value more. */
  predicate Extended(f: Frame, g: Frame) {
    match f
    case InArray(items) => g.InArray? && |g.items| == |items| + 1 && g.items[..|items|] == items
    case InMember(members, name) =>
      g.InObject? && |g.members| == |members| + 1 && g.members[..|members|] == members && g.members[|members|].0 == name
    case InObject(_) => false
  }

  lemma LastFrame(f: Frame, g: Frame)
    requires Extended(f, g) && PrintableFrame(g)
    ensures PrintableFrame(f)
  {
    hide IsClean, Printable;
    if f.InArray? {
      assert forall i :: 0 <= i < |f.items| ==> f.items[i] == g.items[..|f.items|][i] == g.items[i];
    } else {
      assert forall i :: 0 <= i < |f.members| ==> f.members[i] == g.members[..|f.members|][i] == g.members[i];
      assert IsClean(g.members[|f.members|].0);
    }
  }

  lemma LastValue(f: Frame, g: Frame, v: Value)
    requires Extended(f, g) && PrintableFrame(g)
    requires (if f.InArray? then g.items[|f.items|] else g.members[|f.members|].1) == v
    ensures Printable(v)
  {
    hide IsClean, IsNumber;
  }

  lemma PoppedFrames(stack: seq<Frame>, c: Call)
    requires c.PopArray? || c.PopObject?
    requires Grow(Open(stack), c).Some? && PrintableTree(Grow(Open(stack), c).value)
    ensures PrintableTree(Open(stack))
  {
    hide IsClean, IsNumber;
    var n := |stack| - 1;
    var v := if c.PopArray? then Arr(stack[n].items) else Obj(stack[n].members);
    if n > 0 {
      var after := Grow(Open(stack), c).value.stack;
      assert after == stack[..n - 1] + [after[n - 1]];
      assert PrintableFrame(after[n - 1]);
      LastFrame(stack[n - 1], after[n - 1]);
      LastValue(stack[n - 1], after[n - 1], v);
      forall i | 0 <= i < n - 1
        ensures PrintableFrame(stack[i])
      {
        assert PrintableFrame(after[i]);
      }
    }
    assert PrintableFrame(stack[n]);
  }

  lemma KeyedFrames(stack: seq<Frame>, name: string)
    requires Grow(Open(stack), Key(name)).Some? && PrintableTree(Grow(Open(stack), Key(name)).value)
    ensures PrintableTree(Open(stack)) && IsClean(name)
  {
    hide IsClean, Printable;
    var n := |stack| - 1;
    var after := Grow(Open(stack), Key(name)).value.stack;
    assert PrintableFrame(after[n]);
    forall i | 0 <= i < |stack|
      ensures PrintableFrame(stack[i])
    {
      if i < n {
        assert PrintableFrame(after[i]);
      }
    }
  }

  lemma {:induction false} GrowAllOnlyPrintable(t: Tree, calls: seq<Call>)
    requires GrowAll(t, calls).Some? && PrintableTree(GrowAll(t, calls).value)
    ensures PrintableTree(t) && forall i :: 0 <= i < |calls| ==> Plain(calls[i])
    decreases |calls|
  {
    hide PrintableTree, Plain, Grow;
    if calls != [] {
      GrowAllOnlyPrintable(Grow(t, calls[0]).value, calls[1..]);
      GrowOnlyPrintable(t, calls[0]);
    }
  }

  // --- the main results ---------------------------------------------------------------------------------

  /** For every well-nested run of calls that describes a whole value, the dump is that value's text
      and a terminator, and the text parses back to the value exactly when every call of the run,
      however deep inside, was plain. */
  lemma WriterPrintsJson(calls: seq<Call>, v: Value)
    requires GrowAll(Open([]), calls) == Some(Closed(v))
    ensures var text := Dump(PrintAll(EMPTY, calls)).text;
      && text == Text(v) + "\0"
      && (ParseText(text[..|text| - 1]) == Parse(v, |text| - 1) <==> forall i :: 0 <= i < |calls| ==> Plain(calls[i]))
  {
    hide GrowAll, PrintAll, Text, Printable, ParseText, Plain;
    assert Full(TreeText(Open([]))) == EMPTY;
    PrintAllFollows(Open([]), calls);
    OutReplaces(Text(v), ',', "\0");
    TextParsesIff(v);
    if forall i :: 0 <= i < |calls| ==> Plain(calls[i]) {
      GrowAllPrintable(Open([]), calls);
    }
    if Printable(v) {
      GrowAllOnlyPrintable(Open([]), calls);
    }
    assert (Text(v) + "\0")[..|Text(v)|] == Text(v);
  }

  /** A key with a quotation mark: well nested, and not read back. */
  lemma KeyNeedsEscape()
    ensures var calls := [PushObject, Key("a\"b"), NumberCall("1"), PopObject];
      var v := Obj([("a\"b", Num("1"))]);
      var text := Dump(PrintAll(EMPTY, calls)).text;
      && GrowAll(Open([]), calls) == Some(Closed(v))
      && text == "{\"a\"b\":1}\0" && ParseText(text[..|text| - 1]) != Parse(v, |text| - 1)
  {
    hide Grow, PrintAll, ParseText, Dump;
    var calls := [PushObject, Key("a\"b"), NumberCall("1"), PopObject];
    var v := Obj([("a\"b", Num("1"))]);
    FourCalls(calls);
    WriterPrintsJson(calls, v);
    assert !IsUnescaped("a\"b"[1]);
    assert !Plain(calls[1]);
    assert [("a\"b", Num("1"))][0] == ("a\"b", Num("1"));
    assert Text(v) == "{\"a\"b\":1}";
  }

  lemma FourCalls(calls: seq<Call>)
    requires calls == [PushObject, Key("a\"b"), NumberCall("1"), PopObject]
    ensures GrowAll(Open([]), calls) == Some(Closed(Obj([("a\"b", Num("1"))])))
  {
    hide Plain;
    var none: seq<Frame> := [];
    var name := "a\"b";
    var members := [(name, Num("1"))];
    var s1, s2, s3 := [InObject([])], [InMember([], name)], [InObject(members)];
    assert none + s1 == s1 && s1[..0] + s2 == s2 && s2[..0] + s3 == s3;
    assert [] + members == members;
    assert Grow(Open([]), calls[0]) == Some(Open(s1));
    assert Grow(Open(s1), calls[1]) == Some(Open(s2));
    assert Grow(Open(s2), calls[2]) == Some(Open(s3));
    assert s3[..0] == [];
    assert Grow(Open(s3), calls[3]) == Some(Closed(Obj(members)));
    GrowsFour(calls, Open([]), Open(s1), Open(s2), Open(s3), Closed(Obj(members)));
  }

  lemma GrowsFour(calls: seq<Call>, t0: Tree, t1: Tree, t2: Tree, t3: Tree, t4: Tree)
    requires |calls| == 4 && Grow(t0, calls[0]) == Some(t1) && Grow(t1, calls[1]) == Some(t2)
    requires Grow(t2, calls[2]) == Some(t3) && Grow(t3, calls[3]) == Some(t4)
    ensures GrowAll(t0, calls) == Some(t4)
  {
    hide Grow;
    assert calls[1..][1..] == calls[2..] && calls[2..][1..] == calls[3..] && calls[3..][1..] == [];
    assert GrowAll(t3, calls[3..]) == Some(t4);
    assert GrowAll(t2, calls[2..]) == Some(t4);
    assert GrowAll(t1, calls[1..]) == Some(t4);
  }

  /** The shortest runs: a single value prints as JSON for itself exactly when it is plain. */
  lemma SingleValueIff(c: Call)
    requires c.NumberCall? || c.StringCall?
    ensures var text := Dump(PrintAll(EMPTY, [c])).text;
      var v := if c.NumberCall? then Num(c.token) else Str(c.s);
      text != "" && (ParseText(text[..|text| - 1]) == Parse(v, |text| - 1) <==> Plain(c))
  {
    hide Text, ParseText, Dump, PrintAll, Plain;
    var v := if c.NumberCall? then Num(c.token) else Str(c.s);
    assert GrowAll(Closed(v), [c][1..]) == Some(Closed(v));
    WriterPrintsJson([c], v);
    assert (forall i :: 0 <= i < |[c]| ==> Plain([c][i])) <==> Plain([c][0]);
  }

  /** The calls that describe a value; booleans have no call of their own. */
  function CallsOf(v: Value): seq<Call>
    decreases v, 0
  {
    match v
    case Null => [NotFinite]
    case Bool(b) => [NumberCall(if b then "1" else "0")]
    case Num(token) => [NumberCall(token)]
    case Str(s) => [StringCall(s)]
    case Arr(items) => [PushArray] + CallsOfItems(items) + [PopArray]
    case Obj(members) => [PushObject] + CallsOfMembers(members) + [PopObject]
  }

  function CallsOfItems(items: seq<Value>): seq<Call>
    decreases items, 1
  {
    if items == [] then []
    else CallsOfItems(items[..|items| - 1]) + CallsOf(items[|items| - 1])
  }

  function CallsOfMembers(members: seq<(string, Value)>): seq<Call>
    decreases members, 1
  {
    if members == [] then []
    else CallsOfMembers(members[..|members| - 1]) + CallsOfMember(members[|members| - 1])
  }

  function CallsOfMember(m: (string, Value)): seq<Call>
    decreases m, 1
  {
    [Key(m.0)] + CallsOf(m.1)
  }

  ghost predicate NoBools(v: Value) {
    match v
    case Bool(_) => false
    case Arr(items) => forall i :: 0 <= i < |items| ==> NoBools(items[i])
    case Obj(members) => forall i :: 0 <= i < |members| ==> NoBools(members[i].1)
    case _ => true
  }

  lemma {:induction false} GrowConcat(t: Tree, a: seq<Call>, b: seq<Call>)
    requires GrowAll(t, a).Some?
    ensures GrowAll(t, a + b) == GrowAll(GrowAll(t, a).value, b)
    decreases |a|
  {
    hide Grow;
    if a == [] {
      assert a + b == b;
    } else {
      assert (a + b)[1..] == a[1..] + b;
      GrowConcat(Grow(t, a[0]).value, a[1..], b);
    }
  }

  lemma GrowOne(t: Tree, c: Call)
    ensures GrowAll(t, [c]) == Grow(t, c)
  {
    hide Grow;
    assert [c][1..] == [];
  }

  /** Every value without booleans is described by its calls, wherever a value is expected. */
  lemma {:induction false} CallsDescribe(stack: seq<Frame>, v: Value)
    requires TakesValue(stack) && NoBools(v)
    ensures GrowAll(Open(stack), CallsOf(v)) == Some(Complete(stack, v))
    decreases v, 0
  {
    hide GrowAll, Complete;
    match v
    case Arr(items) =>
      GrowOne(Open(stack), PushArray);
      var inside := stack + [InArray([])];
      GrowConcat(Open(stack), [PushArray], CallsOfItems(items));
      ItemsDescribe(stack, items);
      GrowConcat(Open(stack), [PushArray] + CallsOfItems(items), [PopArray]);
      GrowOne(Open(stack + [InArray(items)]), PopArray);
      assert (stack + [InArray(items)])[..|stack|] == stack;
    case Obj(members) =>
      GrowOne(Open(stack), PushObject);
      GrowConcat(Open(stack), [PushObject], CallsOfMembers(members));
      MembersDescribe(stack, members);
      GrowConcat(Open(stack), [PushObject] + CallsOfMembers(members), [PopObject]);
      GrowOne(Open(stack + [InObject(members)]), PopObject);
      assert (stack + [InObject(members)])[..|stack|] == stack;
    case Null => GrowOne(Open(stack), NotFinite);
    case Num(token) => GrowOne(Open(stack), NumberCall(token));
    case Str(s) => GrowOne(Open(stack), StringCall(s));
    case Bool(_) => assert false;
  }

  lemma {:induction false} ItemsDescribe(stack: seq<Frame>, items: seq<Value>)
    requires forall i :: 0 <= i < |items| ==> NoBools(items[i])
    ensures GrowAll(Open(stack + [InArray([])]), CallsOfItems(items)) == Some(Open(stack + [InArray(items)]))
    decreases items, 1
  {
    hide Grow;
    if items != [] {
      var n := |items| - 1;
      var inside := stack + [InArray(items[..n])];
      ItemsDescribe(stack, items[..n]);
      GrowConcat(Open(stack + [InArray([])]), CallsOfItems(items[..n]), CallsOf(items[n]));
      CallsDescribe(inside, items[n]);
      assert inside[..|stack|] == stack && items[..n] + [items[n]] == items;
    }
  }

  lemma {:induction false} MembersDescribe(stack: seq<Frame>, members: seq<(string, Value)>)
    requires forall i :: 0 <= i < |members| ==> NoBools(members[i].1)
    ensures GrowAll(Open(stack + [InObject([])]), CallsOfMembers(members)) == Some(Open(stack + [InObject(members)]))
    decreases members, 1
  {
    hide GrowAll, CallsOfMember;
    if members == [] {
      NoCalls(Open(stack + [InObject([])]));
    } else {
      var n := |members| - 1;
      MembersDescribe(stack, members[..n]);
      GrowConcat(Open(stack + [InObject([])]), CallsOfMembers(members[..n]), CallsOfMember(members[n]));
      MemberDescribes(stack, members[..n], members[n]);
      assert members[..n] + [members[n]] == members;
    }
  }

  lemma {:induction false} MemberDescribes(stack: seq<Frame>, members: seq<(string, Value)>, m: (string, Value))
    requires NoBools(m.1)
    ensures GrowAll(Open(stack + [InObject(members)]), CallsOfMember(m)) == Some(Open(stack + [InObject(members + [m])]))
    decreases m, 1
  {
    hide GrowAll, CallsOf;
    var before := stack + [InObject(members)];
    var inside := stack + [InMember(members, m.0)];
    GrowOne(Open(before), Key(m.0));
    assert before[..|stack|] == stack;
    GrowConcat(Open(before), [Key(m.0)], CallsOf(m.1));
    CallsDescribe(inside, m.1);
    assert inside[..|stack|] == stack;
  }

  lemma NoCalls(t: Tree)
    ensures GrowAll(t, []) == Some(t)
  {
  }

  // --- the class -----------------------------------------------------------------------------------------

  class JsonWriter {
    var text: string
    var put: nat
    var good: bool

    ghost predicate Valid()
      reads this
    {
      put <= |text|
    }

    function State(): Stream
      reads this
    {
      Stream(text, put, good)
    }

    constructor ()
      ensures Valid() && State() == EMPTY
    {
      text, put, good := "", 0, true;
    }

    method Write(s: string)
      requires Valid()
      modifies this
      ensures Valid() && State() == old(State()).Out(s)
    {
      if !good {
        return;
      }
      text := if put + |s| <= |text| then text[..put] + s + text[put + |s|..] else text[..put] + s;
      put := put + |s|;
    }

    /** Reads the last character and steps back over it if it is a comma. */
    method StepBackOverComma() returns (comma: bool)
      requires Valid()
      modifies this
      ensures Valid() && State() == old(State()).BeforeComma()
      ensures comma == (old(State()).CanReadLast() && text[|text| - 1] == ',')
    {
      comma := false;
      if !good || |text| == 0 || IsSpace(text[|text| - 1]) || text[|text| - 1] in {'\U{000B}', '\U{000C}'} {
        good := false;
        return;
      }
      var last := text[|text| - 1];
      if last == ',' {
        put := |text| - 1;
        comma := true;
      }
    }

    method PushObject()
      requires Valid()
      modifies this
      ensures Valid() && State() == Print(old(State()), Call.PushObject)
    {
      Write("{");
    }

    method PopObject()
      requires Valid()
      modifies this
      ensures Valid() && State() == Print(old(State()), Call.PopObject)
    {
      var _ := StepBackOverComma();
      Write("},");
    }

    method PushArray()
      requires Valid()
      modifies this
      ensures Valid() && State() == Print(old(State()), Call.PushArray)
    {
      Write("[");
    }

    method PopArray()
      requires Valid()
      modifies this
      ensures Valid() && State() == Print(old(State()), Call.PopArray)
    {
      var _ := StepBackOverComma();
      Write("],");
    }

    method AddKey(name: string)
      requires Valid()
      modifies this
      ensures Valid() && State() == Print(old(State()), Key(name))
    {
      Write("\"");
      Write(name);
      Write("\":");
    }

    /** `Append` and the assignment operator. */
    method AppendNumber(token: string)
      requires Valid()
      modifies this
      ensures Valid() && State() == Print(old(State()), NumberCall(token))
    {
      Write(token);
      Write(",");
    }

    method AppendString(s: string)
      requires Valid()
      modifies this
      ensures Valid() && State() == Print(old(State()), StringCall(s))
    {
      Write("\"");
      Write(s);
      Write("\"");
      Write(",");
    }

    method AppendNotFinite()
      requires Valid()
      modifies this
      ensures Valid() && State() == Print(old(State()), NotFinite)
    {
      Write("null");
      Write(",");
    }

    /** Assignment of an initializer list of numbers. */
    method AssignNumbers(tokens: seq<string>)
      requires Valid()
      modifies this
      ensures Valid() && State() == PrintAll(old(State()), CallsOf(Arr(Numbers(tokens))))
    {
      hide Stream.Out, Stream.BeforeComma;
      ghost var start := State();
      PushArray();
      ghost var done := [Call.PushArray];
      assert CallsOfItems(Numbers([])) == [];
      PrintOne(start, Call.PushArray);
      for i := 0 to |tokens|
        invariant Valid() && done == [Call.PushArray] + CallsOfItems(Numbers(tokens[..i]))
        invariant State() == PrintAll(start, done)
      {
        AppendNumber(tokens[i]);
        PrintSnoc(start, done, NumberCall(tokens[i]));
        NumbersSnoc(tokens[..i], tokens[i]);
        assert tokens[..i] + [tokens[i]] == tokens[..i + 1];
        done := done + [NumberCall(tokens[i])];
      }
      assert tokens[..|tokens|] == tokens;
      PopArray();
      PrintSnoc(start, done, Call.PopArray);
    }

    method GetDumpString() returns (s: string)
      requires Valid()
      modifies this
      ensures Valid() && State() == Dump(old(State())) && s == text
    {
      var comma := StepBackOverComma();
      if comma {
        Write("\0");
      }
      s := text;
    }
  }

  function Numbers(tokens: seq<string>): (r: seq<Value>)
    ensures |r| == |tokens|
  {
    seq(|tokens|, i requires 0 <= i < |tokens| => Num(tokens[i]))
  }

  lemma NumbersSnoc(tokens: seq<string>, token: string)
    ensures CallsOfItems(Numbers(tokens + [token])) == CallsOfItems(Numbers(tokens)) + [NumberCall(token)]
  {
    var all := Numbers(tokens + [token]);
    assert all[..|tokens|] == Numbers(tokens);
  }

  lemma PrintOne(w: Stream, c: Call)
    requires w.Valid()
    ensures PrintAll(w, [c]) == Print(w, c)
  {
    assert [c][1..] == [];
  }

  lemma {:induction false} PrintSnoc(w: Stream, calls: seq<Call>, c: Call)
    requires w.Valid()
    ensures PrintAll(w, calls + [c]) == Print(PrintAll(w, calls), c)
    decreases |calls|
  {
    hide Print;
    if calls == [] {
      assert calls + [c] == [c];
      PrintOne(w, c);
    } else {
      assert (calls + [c])[1..] == calls[1..] + [c];
      PrintSnoc(Print(w, calls[0]), calls[1..], c);
    }
  }
}
