/** The Python-to-C++ source transpiler over an already parsed syntax tree:
    type names are mapped through a fixed table, functions, returns, binary
    operations, constants and names are rendered, and every other node kind
    renders as nothing. */
module Transpile {
  import opened Wrappers
  import Decimal

  /** The arithmetic operator classes of the Python syntax tree; any other
      operator class (`%`, `**`, `//`, bit operations) is `OtherOperator`. */
  datatype Operator = Add | Sub | Mult | Div | OtherOperator(name: string)

  /** The values a constant node may carry (floating point is left out). */
  datatype ConstValue = IntValue(i: int) | StrValue(s: string) | BoolValue(b: bool) | NoneValue

  /** A parameter and the name of its annotation; `None` stands for a
      missing annotation or one that is not a plain name. */
  datatype Param = Param(arg: string, annotation: Option<string>)

  datatype PyNode =
    | FunctionDef(name: string, params: seq<Param>, returnType: Option<string>, body: seq<PyNode>)
    | Return(value: PyNode)
    | BinOp(left: PyNode, op: Operator, right: PyNode)
    | Constant(c: ConstValue)
    | Name(id: string)
    | Unsupported

  /** `KeyError` from the operator table, `AttributeError` from reading
      `.id` of an annotation that is not a name. */
  datatype TranspileError = KeyError | AttributeError

  const TypeMapping: map<string, string> :=
    map["int" := "int", "float" := "double", "str" := "std::string", "list" := "std::vector<double>"]

  const OperatorMapping: map<Operator, string> :=
    map[Add := "+", Sub := "-", Mult := "*", Div := "/"]

  /** `map_type`: the table entry, or the name itself when it has none. */
  function MapType(t: string): string
  {
    if t in TypeMapping then TypeMapping[t] else t
  }

  /** `str` of a constant's value. */
  function ConstText(c: ConstValue): string
  {
    match c
    case IntValue(i) => Decimal.IntToString(i)
    case StrValue(s) => s
    case BoolValue(b) => if b then "True" else "False"
    case NoneValue => "None"
  }

  function Join(sep: string, items: seq<string>): string
  {
    if items == [] then ""
    else if |items| == 1 then items[0]
    else Join(sep, items[..|items| - 1]) + sep + items[|items| - 1]
  }

  /** The results of rendering a sequence of nodes, in order: the first
      failure, or the concatenation of all texts. */
  function Collect(rs: seq<Result<string, TranspileError>>): Result<string, TranspileError>
  {
    if rs == [] then Success("")
    else
      var init := Collect(rs[..|rs| - 1]);
      if init.Failure? then init
      else if rs[|rs| - 1].Failure? then Failure(rs[|rs| - 1].error)
      else Success(init.value + rs[|rs| - 1].value)
  }

  /** The `type name` parts of the signature, in order: the first
      parameter without a name annotation fails with `AttributeError`. */
  function ParamTexts(ps: seq<Param>): (r: Result<seq<string>, TranspileError>)
    ensures r.Failure? ==> r.error == AttributeError
    ensures r.Success? ==> |r.value| == |ps|
  {
    if ps == [] then Success([])
    else
      var init := ParamTexts(ps[..|ps| - 1]);
      var last := ps[|ps| - 1];
      if init.Failure? then init
      else if last.annotation.None? then Failure(AttributeError)
      else Success(init.value + [MapType(last.annotation.value) + " " + last.arg])
  }

  /** `transpile`. The parts of a rendering are produced left to right, so
      the first failing part decides the error. */
  function Render(node: PyNode): Result<string, TranspileError>
  {
    match node
    case FunctionDef(name, params, returnType, body) =>
      if returnType.None? then Failure(AttributeError)
      else
        var ps := ParamTexts(params);
        if ps.Failure? then Failure(ps.error)
        else
          var b := Collect(seq(|body|, i requires 0 <= i < |body| => Render(body[i])));
          if b.Failure? then b
          else Success(MapType(returnType.value) + " " + name + "(" + Join(", ", ps.value) + ") {\n" + b.value + "}\n")
    case Return(value) =>
      var v := Render(value);
      if v.Failure? then v else Success("    return " + v.value + ";\n")
    case BinOp(left, op, right) =>
      var l := Render(left);
      if l.Failure? then l
      else if op !in OperatorMapping then Failure(KeyError)
      else
        var r := Render(right);
        if r.Failure? then r else Success(l.value + " " + OperatorMapping[op] + " " + r.value)
    case Constant(c) => Success(ConstText(c))
    case Name(id) => Success(id)
    case Unsupported => Success("")
  }

  /** The renderings of a sequence of nodes. */
  function Renderings(nodes: seq<PyNode>): (rs: seq<Result<string, TranspileError>>)
    ensures |rs| == |nodes| && forall i :: 0 <= i < |nodes| ==> rs[i] == Render(nodes[i])
  {
    seq(|nodes|, i requires 0 <= i < |nodes| => Render(nodes[i]))
  }

  /** `transpile_code` over the top-level nodes of an already parsed module:
      append each node's rendering in order. */
  method TranspileCode(nodes: seq<PyNode>) returns (code: Result<string, TranspileError>)
    ensures code == Collect(Renderings(nodes))
  {
    var rs := Renderings(nodes);
    var text := "";
    for i := 0 to |nodes|
      invariant Collect(rs[..i]) == Success(text)
    {
      assert rs[..i + 1][..i] == rs[..i];
      var r := Render(nodes[i]);
      if r.Failure? {
        assert Collect(rs[..i + 1]) == Failure(r.error);
        CollectFailureSticks(rs, i + 1);
        assert rs[..|rs|] == rs;
        return Failure(r.error);
      }
      text := text + r.value;
    }
    assert rs[..|nodes|] == rs;
    code := Success(text);
  }

  /** Once a prefix has failed, the whole sequence fails the same way. */
  lemma {:induction false} CollectFailureSticks(rs: seq<Result<string, TranspileError>>, k: nat)
    requires k <= |rs| && Collect(rs[..k]).Failure?
    ensures Collect(rs) == Collect(rs[..k])
    decreases |rs| - k
  {
    if k < |rs| {
      assert rs[..k + 1][..k] == rs[..k];
      CollectFailureSticks(rs, k + 1);
    } else {
      assert rs[..k] == rs;
    }
  }

  /** The sequence renders exactly when every element renders, and then
      its text is the element texts in order. */
  lemma {:induction false} CollectSucceeds(rs: seq<Result<string, TranspileError>>)
    ensures Collect(rs).Success? <==> forall i :: 0 <= i < |rs| ==> rs[i].Success?
  {
    if rs != [] {
      var n := |rs| - 1;
      CollectSucceeds(rs[..n]);
      assert forall i :: 0 <= i < n ==> rs[..n][i] == rs[i];
    }
  }

  lemma CollectAppend(rs: seq<Result<string, TranspileError>>, a: string)
    requires Collect(rs).Success?
    ensures Collect(rs + [Success(a)]) == Success(Collect(rs).value + a)
  {
    assert (rs + [Success(a)])[..|rs|] == rs;
  }

  /** `map_type` sends the four table names to their C++ types and leaves
      every other name alone; a mapped name maps to itself. */
  lemma MapTypeTable(t: string)
    ensures t == "int" ==> MapType(t) == "int"
    ensures t == "float" ==> MapType(t) == "double"
    ensures t == "str" ==> MapType(t) == "std::string"
    ensures t == "list" ==> MapType(t) == "std::vector<double>"
    ensures t !in {"int", "float", "str", "list"} ==> MapType(t) == t
    ensures MapType(MapType(t)) == MapType(t)
  {
  }

  /** An operator outside `+ - * /` fails with `KeyError` once the left
      operand has rendered. */
  lemma UnknownOperatorFails(left: PyNode, name: string, right: PyNode)
    requires Render(left).Success?
    ensures Render(BinOp(left, OtherOperator(name), right)) == Failure(KeyError)
  {
  }

  /** A function whose return annotation is missing, or any of whose
      parameter annotations is, fails with `AttributeError`. */
  lemma MissingAnnotationFails(name: string, params: seq<Param>, returnType: Option<string>, body: seq<PyNode>)
    requires returnType.None? || exists j :: 0 <= j < |params| && params[j].annotation.None?
    ensures Render(FunctionDef(name, params, returnType, body)) == Failure(AttributeError)
  {
    if returnType.Some? {
      var j :| 0 <= j < |params| && params[j].annotation.None?;
      ParamTextsFails(params, j);
    }
  }

  lemma {:induction false} ParamTextsFails(ps: seq<Param>, j: nat)
    requires j < |ps| && ps[j].annotation.None?
    ensures ParamTexts(ps) == Failure(AttributeError)
  {
    var n := |ps| - 1;
    if j < n {
      assert ps[..n][j] == ps[j];
      ParamTextsFails(ps[..n], j);
    }
  }

  /** A function whose parts all render ends with its body text and the
      closing brace, after the signature built from the mapped types. */
  lemma FunctionText(name: string, params: seq<Param>, ret: string, body: seq<PyNode>)
    requires ParamTexts(params).Success?
    requires forall i :: 0 <= i < |body| ==> Render(body[i]).Success?
    ensures var r := Render(FunctionDef(name, params, Some(ret), body));
            r.Success? &&
            r.value == MapType(ret) + " " + name + "(" + Join(", ", ParamTexts(params).value) + ") {\n" +
                       Collect(Renderings(body)).value + "}\n"
  {
    CollectSucceeds(Renderings(body));
    assert Renderings(body) == seq(|body|, i requires 0 <= i < |body| => Render(body[i]));
  }

  /** Unsupported nodes, such as imports or assignments, contribute
      nothing to the module text. */
  lemma UnsupportedIsSilent(nodes: seq<PyNode>)
    requires Collect(Renderings(nodes)).Success?
    ensures Collect(Renderings(nodes + [Unsupported])) == Collect(Renderings(nodes))
  {
    assert Renderings(nodes + [Unsupported]) == Renderings(nodes) + [Success("")];
    CollectAppend(Renderings(nodes), "");
    assert Collect(Renderings(nodes)).value + "" == Collect(Renderings(nodes)).value;
  }

  lemma AddSignature()
    ensures ParamTexts([Param("a", Some("int")), Param("b", Some("int"))]) == Success(["int a", "int b"])
    ensures Join(", ", ["int a", "int b"]) == "int a, int b"
  {
    var params := [Param("a", Some("int")), Param("b", Some("int"))];
    assert params[..1] == [Param("a", Some("int"))] && params[..1][..0] == [];
    assert MapType("int") == "int";
    assert "int" + " " + "a" == "int a" && "int" + " " + "b" == "int b";
    assert ParamTexts([]) == Success([]);
    assert ParamTexts(params[..1]) == Success([] + ["int a"]);
    assert [] + ["int a"] == ["int a"] && ["int a"] + ["int b"] == ["int a", "int b"];
    assert ["int a", "int b"][..1] == ["int a"];
  }

  lemma AddBody()
    ensures Render(Return(BinOp(Name("a"), Add, Name("b")))) == Success("    return a + b;\n")
    ensures Collect(Renderings([Return(BinOp(Name("a"), Add, Name("b")))])) == Success("    return a + b;\n")
  {
    var body := [Return(BinOp(Name("a"), Add, Name("b")))];
    assert OperatorMapping[Add] == "+";
    assert "a" + " " + "+" + " " + "b" == "a + b";
    assert Render(BinOp(Name("a"), Add, Name("b"))) == Success("a + b");
    assert "    return " + "a + b" + ";\n" == "    return a + b;\n";
    var rs := Renderings(body);
    assert rs == [Success("    return a + b;\n")];
    assert rs[..0] == [];
    assert "" + "    return a + b;\n" == "    return a + b;\n";
  }

  /** The function in the source's own example, `add(a: int, b: int) -> int`
      returning `a + b`, renders as its C++ counterpart. */
  lemma AddExample(add: PyNode)
    requires add == FunctionDef("add", [Param("a", Some("int")), Param("b", Some("int"))], Some("int"),
                                [Return(BinOp(Name("a"), Add, Name("b")))])
    ensures Render(add) ==
            Success("int" + " " + "add" + "(" + "int a, int b" + ") {\n" + "    return a + b;\n" + "}\n")
  {
    AddSignature();
    AddBody();
    var body := add.body;
    assert seq(|body|, i requires 0 <= i < |body| => Render(body[i])) == Renderings(body);
  }

  /** Binary operations render without parentheses, so differently grouped
      trees can give the same text: `(a + b) * c` and `a + (b * c)` both
      render as `a + b * c`. */
  lemma GroupingNotRendered()
    ensures var a, b, c := Name("a"), Name("b"), Name("c");
            BinOp(BinOp(a, Add, b), Mult, c) != BinOp(a, Add, BinOp(b, Mult, c)) &&
            Render(BinOp(BinOp(a, Add, b), Mult, c)) == Render(BinOp(a, Add, BinOp(b, Mult, c)))
  {
    assert OperatorMapping[Add] == "+" && OperatorMapping[Mult] == "*";
    assert "a" + " " + "+" + " " + "b" + " " + "*" + " " + "c" == "a" + " " + "+" + " " + ("b" + " " + "*" + " " + "c");
  }
}
