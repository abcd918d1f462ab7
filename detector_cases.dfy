/**
 * The documented cases of the accessors, of `evalToString`, of the
 * suppression behaviour of `Detect` and of the default coercion, stated on
 * concrete parsed blocks.
 */
module DetectorCases {
  import opened Wrappers
  import opened Values
  import opened Evaluator
  import opened Ast
  import opened Detector

  // ---------------------------------------------------------------------
  // Parsed blocks
  // ---------------------------------------------------------------------

  /** `resource "aws_instance" "web" { <body> }` as a one-item file. */
  function ResourceFile(body: seq<Item>): seq<Item>
  {
    [Item(["resource", "aws_instance", "web"], ObjectNode(body))]
  }

  /** The block as a rule sees it: the first `resource "aws_instance"` item. */
  function WebInstance(body: seq<Item>): (r: Item)
    ensures r == Item(["web"], ObjectNode(body))
  {
    var file := ResourceFile(body);
    assert file[0].keys[..2] == ["resource", "aws_instance"] && file[0].keys[2..] == ["web"];
    assert file[..|file| - 1] == [];
    assert Filter(file, ["resource", "aws_instance"]) == [Stripped(file[0], ["resource", "aws_instance"])];
    Filter(file, ["resource", "aws_instance"])[0]
  }

  const LiteralBody := [Item(["instance_type"], Literal("\"t2.micro\""))]
  const ListBody := [Item(["instance_type"], ListNode([Literal("\"t2.micro\"")]))]
  const MapBody := [Item(["instance_type"], ObjectNode([Item(["default"], Literal("\"t2.micro\""))]))]
  const DeviceBody := [Item(["root_block_device"], ObjectNode([Item(["volume_size"], Literal("\"16\""))]))]

  // ---------------------------------------------------------------------
  // hclLiteralToken, hclObjectItems, IsKeyNotFound
  // ---------------------------------------------------------------------

  /** A literal attribute yields its token text, quotes included. */
  lemma LiteralTokenCase()
    ensures HclLiteralToken(WebInstance(LiteralBody), "instance_type") == Ok("\"t2.micro\"")
  {
  }

  /** A list or object value is not a literal token; an absent key is not found. */
  lemma LiteralTokenErrorCases()
    ensures HclLiteralToken(WebInstance(ListBody), "instance_type") == Err(NotLiteral("instance_type"))
    ensures HclLiteralToken(WebInstance(MapBody), "instance_type") == Err(NotLiteral("instance_type"))
    ensures HclLiteralToken(WebInstance(LiteralBody), "ami_id") == Err(KeyNotFound("ami_id"))
  {
  }

  /** The items under a key come back with the key removed; an absent key is an error. */
  lemma ObjectItemsCases()
    ensures HclObjectItems(WebInstance(DeviceBody), "root_block_device")
         == Ok([Item([], ObjectNode([Item(["volume_size"], Literal("\"16\""))]))])
    ensures HclObjectItems(WebInstance(DeviceBody), "ami_id") == Err(KeyNotFound("ami_id"))
  {
    var device := DeviceBody[0];
    assert device.keys[..1] == ["root_block_device"];
    assert device.keys[1..] == [];
    assert Filter(DeviceBody, ["root_block_device"]) == [Stripped(device, ["root_block_device"])];
    assert device.keys[..1] != ["ami_id"];
  }

  /** A present key is found; a missing one is reported as not found. */
  lemma KeyNotFoundCases()
    ensures !IsKeyNotFound(WebInstance(LiteralBody), "instance_type")
    ensures IsKeyNotFound(WebInstance(LiteralBody), "iam_instance_profile")
  {
  }

  // ---------------------------------------------------------------------
  // evalToString
  // ---------------------------------------------------------------------

  /** One document declaring `variable "text"` with the given default. */
  function TextDocument(default: Option<Raw>): seq<Decoding>
  {
    [Decoded([HclVariable("text", default, "", "")])]
  }

  /** `${var.text}` with a string default evaluates to that string. */
  lemma EvalStringCase()
    ensures Resolve(TextDocument(Some(StringVal("result")))).Ok?
    ensures EvalToString(Reference("var.text"), Resolve(TextDocument(Some(StringVal("result")))).value)
         == Ok("result")
  {
    var docs := TextDocument(Some(StringVal("result")));
    assert Declarations(docs) == docs[0].variables;
    assert QualifiedName("text") == "var.text";
    EvalDeclaredString(docs, 0, "result");
  }

  /** `${var.text}` with a list default is not a string. */
  lemma EvalListCase()
    ensures Resolve(TextDocument(Some(SliceVal([StringVal("result")])))).Ok?
    ensures EvalToString(Reference("var.text"), Resolve(TextDocument(Some(SliceVal([StringVal("result")])))).value)
         == Err(NotString)
  {
    var docs := TextDocument(Some(SliceVal([StringVal("result")])));
    assert Declarations(docs) == docs[0].variables;
    assert QualifiedName("text") == "var.text";
    EvalDeclaredSlice(docs, 0);
  }

  /** A reference to a resource attribute is not in the variable environment. */
  lemma EvalUnresolvedCase()
    ensures Resolve(TextDocument(None)).Ok?
    ensures EvalToString(Reference("aws_instance.app"), Resolve(TextDocument(None)).value)
         == Err(UnresolvedReference("aws_instance.app"))
  {
  }

  // ---------------------------------------------------------------------
  // Detect
  // ---------------------------------------------------------------------

  /** The template calls one module; the registry holds the test rule. */
  function Template(config: Config): Engine
  {
    Engine(
      [Item(["module", "ec2_instance"], ObjectNode([
        Item(["source"], Literal("\"./tf_aws_ec2_instance\"")),
        Item(["ami"], Literal("\"ami-12345\"")),
        Item(["num"], Literal("\"1\""))]))],
      map[],
      config,
      [Module("./tf_aws_ec2_instance", [], map[])])
  }

  const TestRegistry := [Rule("test_rule", TestMethod)]

  /**
   * The test rule reports once for the template and once for the module;
   * suppressing the module leaves one issue, suppressing the rule none.
   */
  lemma DetectCases()
    ensures |RegistryIssues(TestRegistry, Template(Config({}, {})))| == 2
    ensures |RegistryIssues(TestRegistry, Template(Config({}, {"./tf_aws_ec2_instance"})))| == 1
    ensures |RegistryIssues(TestRegistry, Template(Config({"test_rule"}, {})))| == 0
  {
  }

  // ---------------------------------------------------------------------
  // parseVariable
  // ---------------------------------------------------------------------

  /** Two map elements with the same key: the later element's value is kept. */
  lemma MergeLaterWinsCase()
    ensures ParseVariable(SliceVal([MapVal([Entry("name", StringVal("a"))]), MapVal([Entry("name", StringVal("b"))])]), "map")
         == MapVar(map["name" := StringVar(StringVal("b"))])
  {
    var val := SliceVal([MapVal([Entry("name", StringVal("a"))]), MapVal([Entry("name", StringVal("b"))])]);
    ParseMapKeys(val, "map");
    ParseMapLastWins(val, "map", 1, 0);
    var fields := ParseVariable(val, "map").fields;
    assert RawKeys(val.elems) == {"name"};
    assert fields == map["name" := StringVar(StringVal("b"))];
  }
}
