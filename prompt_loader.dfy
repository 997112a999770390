/**
 * The chat service's prompt rendering: the `messages` of a parsed prompt document, each with
 * its `{{key}}` placeholders substituted from a variables mapping, and the model parameters.
 *
 * The prompt is the decoded YAML mapping; the variables mapping is a sequence of (key, value)
 * pairs in the mapping's iteration order. Where Python would raise, the model returns the
 * exception's kind.
 */
module PromptLoader {
  import opened Wrappers
  import opened Json
  import opened StringOps

  /** A rendered message: the dictionary with exactly the keys `role` and `content`. */
  datatype Message = Message(role: Value, content: Value)

  /** The exceptions the rendering can raise on a badly shaped prompt. */
  datatype PyError =
    | TypeError        // iterating or subscripting a value that does not allow it
    | KeyError(key: string)
    | AttributeError   // `.replace` on a content that is not a string

  type Variables = seq<(string, string)>

  /** The literal the f-string `f"{{{{{key}}}}}"` builds. */
  function Placeholder(key: string): (p: string)
    ensures |p| == |key| + 4
    ensures p[..2] == "{{" && p[2..|p| - 2] == key && p[|p| - 2..] == "}}"
  {
    "{{" + key + "}}"
  }

  /** The inner loop on a string content: one `replace` per variable, in mapping order. */
  function ApplyVariables(content: string, vars: Variables): (r: string)
    ensures vars == [] ==> r == content
    ensures |vars| == 1 ==> r == ReplaceAll(content, Placeholder(vars[0].0), vars[0].1)
    decreases |vars|
  {
    if vars == [] then content
    else
      var last := vars[|vars| - 1];
      ReplaceAll(ApplyVariables(content, vars[..|vars| - 1]), Placeholder(last.0), last.1)
  }

  /** The inner loop on any content: untouched without variables, otherwise it must be a string. */
  function RenderContent(content: Value, vars: Variables): (r: Result<Value, PyError>)
    ensures vars == [] ==> r == Success(content)
    ensures vars != [] && !content.JString? ==> r == Failure(AttributeError)
    ensures content.JString? ==> r == Success(JString(ApplyVariables(content.s, vars)))
  {
    if vars == [] then Success(content)
    else if content.JString? then Success(JString(ApplyVariables(content.s, vars)))
    else Failure(AttributeError)
  }

  /** One iteration of the outer loop: `msg['content']`, the substitutions, then `msg['role']`. */
  function RenderMessage(msg: Value, vars: Variables): (r: Result<Message, PyError>)
    ensures !msg.JObject? ==> r == Failure(TypeError)
    ensures msg.JObject? && "content" !in msg.fields ==> r == Failure(KeyError("content"))
    ensures r.Success? ==> msg.JObject? && "role" in msg.fields && "content" in msg.fields
    ensures r.Success? ==> r.value.role == msg.fields["role"]
    ensures r.Success? ==> Success(r.value.content) == RenderContent(msg.fields["content"], vars)
    ensures r.Success? <==>
      msg.JObject? && "content" in msg.fields && RenderContent(msg.fields["content"], vars).Success? && "role" in msg.fields
    ensures msg.JObject? && "content" in msg.fields && RenderContent(msg.fields["content"], vars).Failure? ==>
      r == Failure(RenderContent(msg.fields["content"], vars).error)
    ensures msg.JObject? && "content" in msg.fields && RenderContent(msg.fields["content"], vars).Success? && "role" !in msg.fields ==>
      r == Failure(KeyError("role"))
  {
    if !msg.JObject? then Failure(TypeError)
    else if "content" !in msg.fields then Failure(KeyError("content"))
    else
      match RenderContent(msg.fields["content"], vars)
      case Failure(e) => Failure(e)
      case Success(content) =>
        if "role" !in msg.fields then Failure(KeyError("role"))
        else Success(Message(msg.fields["role"], content))
  }

  /** What `for msg in prompt.get('messages', [])` iterates over. */
  function MessagesOf(prompt: map<string, Value>): (r: Result<seq<Value>, PyError>)
    ensures "messages" !in prompt ==> r == Success([])
    ensures "messages" in prompt && prompt["messages"].JArray? ==> r == Success(prompt["messages"].items)
  {
    if "messages" !in prompt then Success([])
    else
      match prompt["messages"]
      case JArray(items) => Success(items)
      // a string iterates its characters and a mapping its keys: both are strings, which
      // `msg['content']` rejects, so only the empty ones get through
      case JString(s) => if s == [] then Success([]) else Failure(TypeError)
      case JObject(fields) => if fields == map[] then Success([]) else Failure(TypeError)
      case _ => Failure(TypeError)
  }

  /** The outer loop over a list of messages: the first exception ends it. */
  function RenderAll(items: seq<Value>, vars: Variables): (r: Result<seq<Message>, PyError>)
    ensures r.Success? ==> |r.value| == |items|
    decreases |items|
  {
    if items == [] then Success([])
    else
      match RenderAll(items[..|items| - 1], vars)
      case Failure(e) => Failure(e)
      case Success(done) =>
        match RenderMessage(items[|items| - 1], vars)
        case Failure(e) => Failure(e)
        case Success(m) => Success(done + [m])
  }

  /** What `render_messages` returns or raises. */
  function Rendered(prompt: map<string, Value>, vars: Variables): (r: Result<seq<Message>, PyError>)
    ensures r.Success? ==> MessagesOf(prompt).Success? && |r.value| == |MessagesOf(prompt).value|
  {
    match MessagesOf(prompt)
    case Failure(e) => Failure(e)
    case Success(items) => RenderAll(items, vars)
  }

  /** render_messages. */
  method RenderMessages(prompt: map<string, Value>, variables: Variables) returns (r: Result<seq<Message>, PyError>)
    ensures r == Rendered(prompt, variables)
  {
    var items := MessagesOf(prompt);
    if items.Failure? {
      return Failure(items.error);
    }
    var messages: seq<Message> := [];
    for i := 0 to |items.value|
      invariant RenderAll(items.value[..i], variables) == Success(messages)
    {
      assert items.value[..i + 1][..i] == items.value[..i];
      var msg := items.value[i];
      if !msg.JObject? {
        RenderAllStopsAt(items.value, variables, i);
        return Failure(TypeError);
      }
      if "content" !in msg.fields {
        RenderAllStopsAt(items.value, variables, i);
        return Failure(KeyError("content"));
      }
      var content := msg.fields["content"];
      for j := 0 to |variables|
        invariant RenderContent(msg.fields["content"], variables[..j]) == Success(content)
      {
        assert variables[..j + 1][..j] == variables[..j];
        if !content.JString? {
          RenderAllStopsAt(items.value, variables, i);
          return Failure(AttributeError);
        }
        var (key, value) := variables[j];
        content := JString(ReplaceAll(content.s, Placeholder(key), value));
      }
      assert variables[..|variables|] == variables;
      if "role" !in msg.fields {
        RenderAllStopsAt(items.value, variables, i);
        return Failure(KeyError("role"));
      }
      messages := messages + [Message(msg.fields["role"], content)];
    }
    assert items.value[..|items.value|] == items.value;
    return Success(messages);
  }

  /** get_model_parameters: the entry when present, an empty mapping otherwise. */
  function ModelParameters(prompt: map<string, Value>): (r: Value)
    ensures "modelParameters" in prompt ==> r == prompt["modelParameters"]
    ensures "modelParameters" !in prompt ==> r == JObject(map[])
  {
    if "modelParameters" in prompt then prompt["modelParameters"] else JObject(map[])
  }

  /** The dictionary a rendered message stands for. */
  function AsDict(m: Message): (r: Value)
    ensures r.JObject? && r.fields.Keys == {"role", "content"}
    ensures r.fields["role"] == m.role && r.fields["content"] == m.content
  {
    JObject(map["role" := m.role, "content" := m.content])
  }

  // ---------------------------------------------------------------------------------------
  // Properties of the rendering
  // ---------------------------------------------------------------------------------------

  /** A list renders exactly when each message does, one output per input in the same order. */
  lemma {:induction false} RenderAllSuccess(items: seq<Value>, vars: Variables)
    ensures RenderAll(items, vars).Success? <==> forall i :: 0 <= i < |items| ==> RenderMessage(items[i], vars).Success?
    ensures RenderAll(items, vars).Success? ==>
      |RenderAll(items, vars).value| == |items| &&
      forall i :: 0 <= i < |items| ==> RenderMessage(items[i], vars) == Success(RenderAll(items, vars).value[i])
    decreases |items|
  {
    if items != [] {
      var init := items[..|items| - 1];
      RenderAllSuccess(init, vars);
      assert forall i :: 0 <= i < |init| ==> init[i] == items[i];
    }
  }

  /** A failing list raises what its first failing message raises. */
  lemma {:induction false} RenderAllFirstFailure(items: seq<Value>, vars: Variables, k: nat)
    requires k < |items| && RenderMessage(items[k], vars).Failure?
    requires forall i :: 0 <= i < k ==> RenderMessage(items[i], vars).Success?
    ensures RenderAll(items, vars) == Failure(RenderMessage(items[k], vars).error)
    decreases |items|
  {
    var init := items[..|items| - 1];
    if k < |items| - 1 {
      assert forall i :: 0 <= i <= k ==> init[i] == items[i];
      RenderAllFirstFailure(init, vars, k);
    } else {
      RenderAllSuccess(init, vars);
      assert forall i :: 0 <= i < |init| ==> init[i] == items[i];
    }
  }

  /** A list whose prefix renders raises what the next message raises. */
  lemma RenderAllStopsAt(items: seq<Value>, vars: Variables, k: nat)
    requires k < |items| && RenderAll(items[..k], vars).Success? && RenderMessage(items[k], vars).Failure?
    ensures RenderAll(items, vars) == Failure(RenderMessage(items[k], vars).error)
  {
    RenderAllSuccess(items[..k], vars);
    assert forall i :: 0 <= i < k ==> items[..k][i] == items[i];
    RenderAllFirstFailure(items, vars, k);
  }

  /** A rendered list of messages: one output per input, in order, each with its input's role. */
  lemma RenderedMessages(prompt: map<string, Value>, vars: Variables)
    requires "messages" in prompt && prompt["messages"].JArray?
    ensures var items := prompt["messages"].items;
      var r := Rendered(prompt, vars);
      r.Success? ==>
        (|r.value| == |items| &&
         forall i :: 0 <= i < |items| ==>
           items[i].JObject? && "role" in items[i].fields && "content" in items[i].fields &&
           r.value[i].role == items[i].fields["role"] &&
           Success(r.value[i].content) == RenderContent(items[i].fields["content"], vars))
  {
    RenderAllSuccess(prompt["messages"].items, vars);
  }

  /** Without any `messages` entry the result is the empty list. */
  lemma NoMessages(prompt: map<string, Value>, vars: Variables)
    requires "messages" !in prompt
    ensures Rendered(prompt, vars) == Success([])
  {
  }

  /** With no variables each message keeps its role and its content as they were. */
  lemma NoVariables(msg: Value)
    requires msg.JObject? && "role" in msg.fields && "content" in msg.fields
    ensures RenderMessage(msg, []) == Success(Message(msg.fields["role"], msg.fields["content"]))
  {
  }

  /** The substitutions run one key at a time from the first: the first key's `replace` comes first. */
  lemma {:induction false} ApplyVariablesFirst(content: string, v: (string, string), rest: Variables)
    ensures ApplyVariables(content, [v] + rest) == ApplyVariables(ReplaceAll(content, Placeholder(v.0), v.1), rest)
    decreases |rest|
  {
    var vars := [v] + rest;
    if rest == [] {
      assert vars[..0] == [];
    } else {
      var last := rest[|rest| - 1];
      assert vars[..|vars| - 1] == [v] + rest[..|rest| - 1];
      assert vars[|vars| - 1] == last;
      ApplyVariablesFirst(content, v, rest[..|rest| - 1]);
    }
  }

  /** A content without any of the placeholders comes back unchanged. */
  lemma {:induction false} ApplyVariablesAbsent(content: string, vars: Variables)
    requires forall i :: 0 <= i < |vars| ==> !Occurs(content, Placeholder(vars[i].0))
    ensures ApplyVariables(content, vars) == content
    decreases |vars|
  {
    if vars != [] {
      var init := vars[..|vars| - 1];
      assert forall i :: 0 <= i < |init| ==> init[i] == vars[i];
      ApplyVariablesAbsent(content, init);
      ReplaceAbsent(content, Placeholder(vars[|vars| - 1].0), vars[|vars| - 1].1);
    }
  }

  /** For example, a value holding a later key's placeholder is substituted again, one holding an earlier key's is not. */
  lemma Cascade()
    ensures ApplyVariables("{{a}}", [("a", "{{b}}"), ("b", "x")]) == "x"
    ensures ApplyVariables("{{a}}", [("b", "x"), ("a", "{{b}}")]) == "{{b}}"
  {
    assert [("a", "{{b}}"), ("b", "x")][..1] == [("a", "{{b}}")];
    assert [("b", "x"), ("a", "{{b}}")][..1] == [("b", "x")];
    assert ReplaceAll("{{a}}", "{{a}}", "{{b}}") == "{{b}}";
    assert ReplaceAll("{{b}}", "{{b}}", "x") == "x";
    assert ReplaceAll("{{a}}", "{{b}}", "x") == "{{a}}";
  }
}
