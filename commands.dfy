/** Command dispatch on the resolved profile: the command table, and the
    wire string `left_surround + command + seperator + action + right_surround`
    built for one command and action. */
module Commands {
  import opened Values
  import opened Config

  /** `command_spec`: the profile's `command_list` section. */
  function CommandSpec(config: Dict): (r: Result<Value>)
    ensures r.Ok? <==> "command_list" in Keys(config)
    ensures r.Ok? ==> Get(config, "command_list") == Some(r.value)
    ensures r.Err? ==> r.error == MissingKey("command_list")
  {
    match Get(config, "command_list")
    case Some(v) => Ok(v)
    case None => Err(MissingKey("command_list"))
  }

  /** A profile that passed validation has a non-empty command table. */
  lemma ValidatedCommandSpec(deviceId: string, config: Dict)
    requires Validate(deviceId, config) == Pass
    ensures CommandSpec(config).Ok?
    ensures PyLen(CommandSpec(config).value).Some? && PyLen(CommandSpec(config).value).value > 0
  {
  }

  // ---------------------------------------------------------------------
  // Rendering a template field as `str.format` does

  function DigitChar(d: nat): char
    requires d < 10
  {
    "0123456789"[d]
  }

  /** The decimal digits of `n`, most significant first. */
  function DecimalDigits(n: nat): string
    decreases n
  {
    if n < 10 then [DigitChar(n)] else DecimalDigits(n / 10) + [DigitChar(n % 10)]
  }

  /** Python's `str(i)` for an integer. */
  function IntToString(i: int): string {
    if i < 0 then "-" + DecimalDigits(-i) else DecimalDigits(i)
  }

  /** The values whose `str()` form the model defines. */
  predicate Renderable(v: Value) {
    v.Str? || v.Int? || v.Bool? || v.Null?
  }

  /** `str(v)`, as `str.format` inserts it. */
  function Render(v: Value): string
    requires Renderable(v)
  {
    match v
    case Str(s) => s
    case Int(i) => IntToString(i)
    case Bool(b) => if b then "True" else "False"
    case Null => "None"
  }

  const TemplateFields: seq<string> := ["left_surround", "seperator", "right_surround"]

  /** The field `key` is absent or has a defined rendering. */
  predicate FieldRenderable(config: Dict, key: string) {
    match Get(config, key)
    case None => true
    case Some(v) => Renderable(v)
  }

  /** Every template field that the profile sets has a defined rendering. */
  predicate TemplateRenderable(config: Dict) {
    && FieldRenderable(config, "left_surround")
    && FieldRenderable(config, "seperator")
    && FieldRenderable(config, "right_surround")
  }

  /** `config.get(key, '')`, rendered. */
  function Field(config: Dict, key: string): string
    requires FieldRenderable(config, key)
  {
    match Get(config, key)
    case None => ""
    case Some(v) => Render(v)
  }

  /** The three strings a wire string is built from. */
  datatype Template = Template(left: string, sep: string, right: string)

  /** The profile's template fields, each absent one read as `''`. */
  function TemplateOf(config: Dict): Template
    requires TemplateRenderable(config)
  {
    Template(Field(config, "left_surround"), Field(config, "seperator"), Field(config, "right_surround"))
  }

  function Wire(t: Template, command: string, action: string): string {
    t.left + command + t.sep + action + t.right
  }

  /** `_create_command_string`: the command and action aliases go verbatim
      between the profile's surrounds and separator. When the separator does
      not start inside the command alias, the device can read the command and
      the action back (`ParseCommandString`, below). */
  function CreateCommandString(config: Dict, command: string, action: string): (w: string)
    requires TemplateRenderable(config)
    ensures |w| == |Field(config, "left_surround")| + |command| + |Field(config, "seperator")| +
                   |action| + |Field(config, "right_surround")|
    ensures PartsAt(w, Field(config, "left_surround"), command, Field(config, "seperator"), action,
                    Field(config, "right_surround"))
    ensures SeparatorFree(command, Field(config, "seperator")) ==>
              ParseCommandString(config, w) == Some((command, action))
  {
    var t := TemplateOf(config);
    SplitWire(t, command, action);
    WireSlices(t, command, action);
    Wire(t, command, action)
  }

  /** `w` is made of the five parts `l`, `c`, `s`, `a`, `r`, each at its place. */
  predicate PartsAt(w: string, l: string, c: string, s: string, a: string, r: string) {
    && |w| == |l| + |c| + |s| + |a| + |r|
    && w[..|l|] == l
    && w[|l|..|l| + |c|] == c
    && w[|l| + |c|..|l| + |c| + |s|] == s
    && w[|l| + |c| + |s|..|w| - |r|] == a
    && w[|w| - |r|..] == r
  }

  /** Each of the five parts sits at its place in the wire string. */
  lemma WireSlices(t: Template, c: string, a: string)
    ensures PartsAt(Wire(t, c, a), t.left, c, t.sep, a, t.right)
  {
    var w, l, s, r := Wire(t, c, a), t.left, t.sep, t.right;
    var mid := c + s + a;
    assert w == l + mid + r;
    ThreeParts(l, mid, r);
    var m := w[|l|..|w| - |r|];
    assert m == mid;
    ThreeParts(c, s, a);
    assert w[|l|..|l| + |c|] == m[..|c|];
    assert w[|l| + |c|..|l| + |c| + |s|] == m[|c|..|c| + |s|];
    assert m[|c|..|c| + |s|] == s;
    assert w[|l| + |c| + |s|..|w| - |r|] == m[|c| + |s|..];
  }

  /** A field holding a string renders as that string. */
  lemma FieldOfString(config: Dict, key: string, s: string)
    requires Get(config, key) == Some(Str(s))
    ensures FieldRenderable(config, key) && Field(config, key) == s
  {
  }

  /** With `(`, `:` and `)` as the template fields, power/on gives
      `(power:on)`. */
  lemma CommandStringExample(config: Dict)
    requires Get(config, "left_surround") == Some(Str("("))
    requires Get(config, "seperator") == Some(Str(":"))
    requires Get(config, "right_surround") == Some(Str(")"))
    ensures TemplateRenderable(config)
    ensures CreateCommandString(config, "power", "on") == "(power:on)"
  {
    FieldOfString(config, "left_surround", "(");
    FieldOfString(config, "seperator", ":");
    FieldOfString(config, "right_surround", ")");
    assert TemplateRenderable(config);
    var w := CreateCommandString(config, "power", "on");
    assert w == "(" + "power" + ":" + "on" + ")";
    PowerOn();
  }

  lemma PowerOn() ensures "(" + "power" + ":" + "on" + ")" == "(power:on)" {}

  /** Absent template fields default to the empty string. */
  lemma CommandStringDefaults(config: Dict, command: string, action: string)
    requires "left_surround" !in Keys(config) && "seperator" !in Keys(config) && "right_surround" !in Keys(config)
    ensures TemplateRenderable(config)
    ensures CreateCommandString(config, command, action) == command + action
  {
  }

  /** The wire string depends on the three template fields only: the tokens
      stored in `command_list` (and every other key) play no part. */
  lemma CommandStringIgnoresOtherKeys(config: Dict, key: string, v: Value, command: string, action: string)
    requires TemplateRenderable(config) && key !in TemplateFields
    ensures TemplateRenderable(Put(config, key, v))
    ensures CreateCommandString(Put(config, key, v), command, action) == CreateCommandString(config, command, action)
  {
    var c' := Put(config, key, v);
    assert Get(c', "left_surround") == Get(config, "left_surround");
    assert Get(c', "seperator") == Get(config, "seperator");
    assert Get(c', "right_surround") == Get(config, "right_surround");
  }

  // ---------------------------------------------------------------------
  // Reading a wire string back

  /** `sep` occurs in `s` at position `i`. */
  predicate OccursAt(s: string, sep: string, i: nat) {
    i + |sep| <= |s| && s[i..i + |sep|] == sep
  }

  /** The first occurrence of `sep` in `s` at or after `from`. */
  function IndexOf(s: string, sep: string, from: nat): (r: Option<nat>)
    ensures r.Some? ==> from <= r.value && OccursAt(s, sep, r.value)
    ensures r.Some? ==> forall j :: from <= j < r.value ==> !OccursAt(s, sep, j)
    ensures r.None? ==> forall j :: from <= j ==> !OccursAt(s, sep, j)
    decreases |s| - from
  {
    if from + |sep| > |s| then None
    else if OccursAt(s, sep, from) then Some(from)
    else IndexOf(s, sep, from + 1)
  }

  /** The device's reading of a wire string: strip the surrounds, split at
      the first separator. */
  function Split(t: Template, wire: string): Option<(string, string)> {
    if |wire| < |t.left| + |t.right| || wire[..|t.left|] != t.left || wire[|wire| - |t.right|..] != t.right then None
    else
      var mid := wire[|t.left|..|wire| - |t.right|];
      match IndexOf(mid, t.sep, 0)
      case None => None
      case Some(i) => Some((mid[..i], mid[i + |t.sep|..]))
  }

  function ParseCommandString(config: Dict, wire: string): Option<(string, string)>
    requires TemplateRenderable(config)
  {
    Split(TemplateOf(config), wire)
  }

  /** The separator does not start inside `command` (also not across its end). */
  predicate SeparatorFree(command: string, sep: string) {
    forall i :: 0 <= i < |command| ==> !OccursAt(command + sep, sep, i)
  }

  /** IndexOf finds an occurrence that has none before it. */
  lemma {:induction false} IndexOfFirst(s: string, sep: string, from: nat, p: nat)
    requires from <= p && OccursAt(s, sep, p)
    requires forall j :: from <= j < p ==> !OccursAt(s, sep, j)
    ensures IndexOf(s, sep, from) == Some(p)
    decreases p - from
  {
    if from < p {
      IndexOfFirst(s, sep, from + 1, p);
    }
  }

  /** In `command + sep + action` the first separator is the one after the
      command, when the separator does not start inside the command. */
  lemma FirstSeparator(command: string, sep: string, action: string)
    requires SeparatorFree(command, sep)
    ensures IndexOf(command + sep + action, sep, 0) == Some(|command|)
  {
    var mid := command + sep + action;
    assert mid[|command|..|command| + |sep|] == sep;
    forall j | 0 <= j < |command| ensures !OccursAt(mid, sep, j) {
      assert !OccursAt(command + sep, sep, j);
      assert mid[j..j + |sep|] == (command + sep)[j..j + |sep|];
    }
    IndexOfFirst(mid, sep, 0, |command|);
  }

  lemma SplitWire(t: Template, command: string, action: string)
    ensures SeparatorFree(command, t.sep) ==> Split(t, Wire(t, command, action)) == Some((command, action))
  {
    if SeparatorFree(command, t.sep) {
      var mid := command + t.sep + action;
      assert Wire(t, command, action) == t.left + mid + t.right;
      ThreeParts(t.left, mid, t.right);
      FirstSeparator(command, t.sep, action);
      ThreeParts(command, t.sep, action);
    }
  }

  /** The three parts of `x + y + z` can be cut back out. */
  lemma ThreeParts(x: string, y: string, z: string)
    ensures var w := x + y + z;
            && w[..|x|] == x
            && w[|x|..|w| - |z|] == y
            && w[|w| - |z|..] == z
            && w[|x| + |y|..] == z
  {
    var w := x + y + z;
    assert w[..|x|] == x;
    assert w[|x|..|w| - |z|] == y;
    assert w[|w| - |z|..] == z;
  }

  lemma SliceAround(s: string, sep: string, i: nat)
    requires OccursAt(s, sep, i)
    ensures s == s[..i] + sep + s[i + |sep|..]
  {
    assert s[i..i + |sep|] == sep;
    assert s == s[..i] + s[i..i + |sep|] + s[i + |sep|..];
  }

  lemma SliceEnds(w: string, l: nat, r: nat)
    requires l + r <= |w|
    ensures w == w[..l] + w[l..|w| - r] + w[|w| - r..]
  {
  }

  lemma WireSplit(t: Template, wire: string)
    requires Split(t, wire).Some?
    ensures Wire(t, Split(t, wire).value.0, Split(t, wire).value.1) == wire
  {
    var n, l, r := |wire|, |t.left|, |t.right|;
    var mid := wire[l..n - r];
    var i := IndexOf(mid, t.sep, 0).value;
    var c, a := mid[..i], mid[i + |t.sep|..];
    assert Split(t, wire) == Some((c, a));
    SliceAround(mid, t.sep, i);
    SliceEnds(wire, l, r);
    WireOfParts(t, c, a, mid, wire);
  }

  lemma WireOfParts(t: Template, c: string, a: string, mid: string, wire: string)
    requires mid == c + t.sep + a && wire == t.left + mid + t.right
    ensures Wire(t, c, a) == wire
  {
  }

  /** Every wire string the parser accepts is the command string of what it
      returns. */
  lemma ParseCommandStringSound(config: Dict, wire: string)
    requires TemplateRenderable(config)
    requires ParseCommandString(config, wire).Some?
    ensures var p := ParseCommandString(config, wire).value;
            CreateCommandString(config, p.0, p.1) == wire
  {
    WireSplit(TemplateOf(config), wire);
  }
}
