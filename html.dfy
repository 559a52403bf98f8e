/**
 * An abstract HTML document and the "is this the login page?" marker.
 *
 * A parsed page is kept only as far as the login protocol looks at it: the
 * forms and the input elements, in document order. A form carries its optional
 * `id` attribute and the inputs inside it; an input outside every form is a
 * node of its own. An input carries its `name` and its optional `value`
 * attribute. Everything else in the page is abstracted away.
 */
module Html {
  import opened Wrappers

  datatype Input = Input(name: string, value: Option<string>)
  datatype Form = Form(id: Option<string>, inputs: seq<Input>)
  datatype Node = FormNode(form: Form) | InputNode(input: Input)
  datatype Document = Document(nodes: seq<Node>)

  /** The id of the site's login form, `form#linkEnterForm`. */
  const LoginFormId := "linkEnterForm"
  /** The name of the anti-forgery input, `input[name="csrf_token"]`. */
  const CsrfFieldName := "csrf_token"

  /** `k` is the position of the first element of `s` that satisfies `p`. */
  predicate IsFirst<T>(s: seq<T>, p: T -> bool, k: int)
  {
    0 <= k < |s| && p(s[k]) && forall j :: 0 <= j < k ==> !p(s[j])
  }

  /** The first match in document order, as `querySelector` returns it. */
  function FirstMatch<T>(s: seq<T>, p: T -> bool): (r: Option<nat>)
    ensures r.None? <==> forall k :: 0 <= k < |s| ==> !p(s[k])
    ensures r.Some? ==> IsFirst(s, p, r.value)
    ensures r.Some? ==> forall k :: IsFirst(s, p, k) ==> k == r.value
  {
    if |s| == 0 then None
    else if p(s[0]) then Some(0)
    else match FirstMatch(s[1..], p)
      case None => None
      case Some(k) => Some(k + 1)
  }

  function NodeForms(n: Node): seq<Form>
  {
    match n
    case FormNode(f) => [f]
    case InputNode(_) => []
  }

  function NodeInputs(n: Node): seq<Input>
  {
    match n
    case FormNode(f) => f.inputs
    case InputNode(i) => [i]
  }

  /** The forms of a node list, in document order. */
  function Forms(nodes: seq<Node>): seq<Form>
  {
    if |nodes| == 0 then []
    else NodeForms(nodes[0]) + Forms(nodes[1..])
  }

  /** Every input of a node list, inside a form or not, in document order. */
  function Inputs(nodes: seq<Node>): seq<Input>
  {
    if |nodes| == 0 then []
    else NodeInputs(nodes[0]) + Inputs(nodes[1..])
  }

  predicate IsLoginForm(f: Form)
  {
    f.id == Some(LoginFormId)
  }

  predicate IsCsrfInput(i: Input)
  {
    i.name == CsrfFieldName
  }

  predicate HasCsrfInput(f: Form)
  {
    exists i :: 0 <= i < |f.inputs| && IsCsrfInput(f.inputs[i])
  }

  /**
   * The page asks for a login: its first `form#linkEnterForm` holds an
   * `input[name="csrf_token"]`. A page without such a form, however broken
   * or empty, counts as authenticated.
   */
  predicate RequiresLogin(doc: Document)
    ensures RequiresLogin(doc) ==> exists k :: IsFirst(Forms(doc.nodes), IsLoginForm, k)
  {
    var forms := Forms(doc.nodes);
    match FirstMatch(forms, IsLoginForm)
    case None => false
    case Some(k) => FirstMatch(forms[k].inputs, IsCsrfInput).Some?
  }

  /** The marker holds exactly when the first login form holds a csrf input. */
  lemma RequiresLoginIff(doc: Document)
    ensures RequiresLogin(doc) <==>
      exists k :: IsFirst(Forms(doc.nodes), IsLoginForm, k) && HasCsrfInput(Forms(doc.nodes)[k])
  {
    var forms := Forms(doc.nodes);
    match FirstMatch(forms, IsLoginForm)
    case None =>
    case Some(k) =>
      assert IsFirst(forms, IsLoginForm, k);
  }

  /** Without a login form the page counts as authenticated, whatever else it holds. */
  lemma NoLoginFormMeansAuthenticated(doc: Document)
    requires forall k :: 0 <= k < |Forms(doc.nodes)| ==> !IsLoginForm(Forms(doc.nodes)[k])
    ensures !RequiresLogin(doc)
  {
  }

  lemma {:induction false} FormsConcat(a: seq<Node>, b: seq<Node>)
    ensures Forms(a + b) == Forms(a) + Forms(b)
  {
    if |a| == 0 {
      assert a + b == b;
    } else {
      assert (a + b)[0] == a[0] && (a + b)[1..] == a[1..] + b;
      FormsConcat(a[1..], b);
      calc {
        Forms(a + b);
        NodeForms(a[0]) + Forms(a[1..] + b);
        NodeForms(a[0]) + (Forms(a[1..]) + Forms(b));
        (NodeForms(a[0]) + Forms(a[1..])) + Forms(b);
      }
    }
  }

  lemma {:induction false} InputsConcat(a: seq<Node>, b: seq<Node>)
    ensures Inputs(a + b) == Inputs(a) + Inputs(b)
  {
    if |a| == 0 {
      assert a + b == b;
    } else {
      assert (a + b)[0] == a[0] && (a + b)[1..] == a[1..] + b;
      InputsConcat(a[1..], b);
      calc {
        Inputs(a + b);
        NodeInputs(a[0]) + Inputs(a[1..] + b);
        NodeInputs(a[0]) + (Inputs(a[1..]) + Inputs(b));
        (NodeInputs(a[0]) + Inputs(a[1..])) + Inputs(b);
      }
    }
  }

  /** Inserting an input outside every form, anywhere in the page, a csrf input
      included, does not change whether the page requires a login. */
  lemma LooseInputIsIgnored(doc: Document, pos: nat, x: Input)
    requires pos <= |doc.nodes|
    ensures RequiresLogin(Document(doc.nodes[..pos] + [InputNode(x)] + doc.nodes[pos..]))
         == RequiresLogin(doc)
  {
    var a, b := doc.nodes[..pos], doc.nodes[pos..];
    var grown := a + [InputNode(x)] + b;
    assert Forms(grown) == Forms(doc.nodes) by {
      FormsConcat(a + [InputNode(x)], b);
      FormsConcat(a, [InputNode(x)]);
      FormsConcat(a, b);
      assert a + b == doc.nodes;
      assert Forms([InputNode(x)]) == [];
    }
  }

  /** When the page has at most one login form, the marker is simply "a login
      form exists and holds a csrf input". */
  lemma UniqueLoginForm(doc: Document)
    requires forall j, k :: 0 <= j < k < |Forms(doc.nodes)| ==> !(IsLoginForm(Forms(doc.nodes)[j]) && IsLoginForm(Forms(doc.nodes)[k]))
    ensures RequiresLogin(doc) <==>
      exists k :: 0 <= k < |Forms(doc.nodes)| && IsLoginForm(Forms(doc.nodes)[k]) && HasCsrfInput(Forms(doc.nodes)[k])
  {
    var fs := Forms(doc.nodes);
    RequiresLoginIff(doc);
    if k :| 0 <= k < |fs| && IsLoginForm(fs[k]) && HasCsrfInput(fs[k]) {
      assert IsFirst(fs, IsLoginForm, k);
    }
  }

  /** Every input inside a form of the page is an input of the page. */
  lemma {:induction false} FormInputIsDocumentInput(nodes: seq<Node>, k: nat, i: nat)
    requires k < |Forms(nodes)| && i < |Forms(nodes)[k].inputs|
    ensures Forms(nodes)[k].inputs[i] in Inputs(nodes)
  {
    match nodes[0]
    case FormNode(f) =>
      if k == 0 {
        assert Forms(nodes)[0] == f;
        assert Inputs(nodes) == f.inputs + Inputs(nodes[1..]);
      } else {
        assert Forms(nodes)[k] == Forms(nodes[1..])[k - 1];
        FormInputIsDocumentInput(nodes[1..], k - 1, i);
      }
    case InputNode(_) =>
      assert Forms(nodes) == Forms(nodes[1..]);
      FormInputIsDocumentInput(nodes[1..], k, i);
  }
}
