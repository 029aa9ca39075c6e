/** Template interpolation (`interpolate_params` and
    `interpolate_option_params` in `src/trigger.rs`): every declared
    parameter is resolved first, and only then is each `$name` replaced by
    its value, one parameter after another. */
module Interpolation {
  import opened Prelude
  import opened Strings
  import opened Config

  /** The text a parameter named `name` replaces in a template. */
  function Token(name: string): string {
    "$" + name
  }

  /** Every declared parameter resolves. */
  predicate AllResolve(ps: Params, env: Env) {
    forall i :: 0 <= i < |ps| ==> GetValue(ps[i].definition, env).Success?
  }

  /** Resolves every parameter, in map order. The source resolves them
      concurrently and reports a failure as soon as one fails; here the
      failure reported is the first in map order. */
  function ResolveAll(ps: Params, env: Env): (r: Result<seq<string>, ParameterError>)
    ensures r.Success? <==> AllResolve(ps, env)
    ensures r.Success? ==>
      |r.value| == |ps| && forall i :: 0 <= i < |ps| ==> GetValue(ps[i].definition, env) == Success(r.value[i])
    ensures r.Failure? ==>
      exists i :: 0 <= i < |ps| && GetValue(ps[i].definition, env) == Failure(r.error)
        && (forall j :: 0 <= j < i ==> GetValue(ps[j].definition, env).Success?)
    decreases |ps|
  {
    if |ps| == 0 then Success([])
    else
      assert forall i :: 0 < i < |ps| ==> ps[i] == ps[1..][i - 1];
      match GetValue(ps[0].definition, env)
      case Failure(e) => Failure(e)
      case Success(v) =>
        match ResolveAll(ps[1..], env)
        case Failure(e) => Failure(e)
        case Success(vs) => Success([v] + vs)
  }

  /** Resolution of a parameter map depends on nothing but the resolution
      of each of its parameters. */
  lemma {:induction false} ResolveAllAgree(ps: Params, env1: Env, env2: Env)
    requires forall i :: 0 <= i < |ps| ==>
      GetValue(ps[i].definition, env1) == GetValue(ps[i].definition, env2)
    ensures ResolveAll(ps, env1) == ResolveAll(ps, env2)
    decreases |ps|
  {
    if |ps| > 0 {
      assert GetValue(ps[0].definition, env1) == GetValue(ps[0].definition, env2);
      assert forall i :: 0 <= i < |ps[1..]| ==> ps[1..][i] == ps[i + 1];
      ResolveAllAgree(ps[1..], env1, env2);
    }
  }

  /** Replaces the token of each parameter by its value, one parameter after
      another in map order. */
  function Substitute(template: string, ps: Params, values: seq<string>): string
    requires |values| == |ps|
    decreases |ps|
  {
    if |ps| == 0 then template
    else Substitute(Replace(template, Token(ps[0].name), values[0]), ps[1..], values[1..])
  }

  /** The replacement loop handles the parameters one after another: the
      last parameter's token is replaced in the result of all the earlier
      ones, so every parameter gets its own `str::replace`, in map order. */
  lemma {:induction false} SubstituteSnoc(t: string, ps: Params, vs: seq<string>, b: Binding, v: string)
    requires |vs| == |ps|
    ensures Substitute(t, ps + [b], vs + [v]) == Replace(Substitute(t, ps, vs), Token(b.name), v)
    decreases |ps|
  {
    if |ps| > 0 {
      assert (ps + [b])[1..] == ps[1..] + [b];
      assert (vs + [v])[1..] == vs[1..] + [v];
      SubstituteSnoc(Replace(t, Token(ps[0].name), vs[0]), ps[1..], vs[1..], b, v);
    }
  }

  /** `interpolate_params`. */
  function Interpolate(template: string, ps: Params, env: Env): (r: Result<string, ParameterError>)
    ensures r.Success? <==> AllResolve(ps, env)
    ensures r.Failure? ==> exists i :: 0 <= i < |ps| && GetValue(ps[i].definition, env) == Failure(r.error)
  {
    match ResolveAll(ps, env)
    case Failure(e) => Failure(e)
    case Success(values) => Success(Substitute(template, ps, values))
  }

  /** `interpolate_option_params`: an absent template is not interpolated. */
  function InterpolateOption(input: Option<string>, ps: Params, env: Env): (r: Result<Option<string>, ParameterError>)
    ensures input.None? ==> r == Success(None)
    ensures input.Some? ==> (r.Success? <==> AllResolve(ps, env))
    ensures r.Success? ==> (r.value.Some? <==> input.Some?)
  {
    match input
    case None => Success(None)
    case Some(template) =>
      match Interpolate(template, ps, env)
      case Failure(e) => Failure(e)
      case Success(s) => Success(Some(s))
  }

  /** The unit test `test_interpolate`: `foo_$param` with `param` bound to
      the static value `bar` gives `foo_bar`. */
  lemma InterpolateExample(env: Env)
    ensures Interpolate("foo_$param", [Binding("param", Value("bar"))], env) == Success("foo_bar")
  {
    assert "foo_$param" == "foo_" + Token("param");
    ReplaceAppend("foo_", Token("param"), Token("param"), "bar");
    ReplaceHead("", Token("param"), "bar");
    assert Replace("foo_$param", Token("param"), "bar") == "foo_bar";
    SingleParameter("foo_$param", "param", Value("bar"), "bar", env);
  }

  /** Substitution leaves a template without `$` as it is. */
  lemma {:induction false} SubstituteNoToken(template: string, ps: Params, values: seq<string>)
    requires |values| == |ps|
    requires '$' !in template
    ensures Substitute(template, ps, values) == template
    decreases |ps|
  {
    if |ps| > 0 {
      FirstCharAbsent(template, Token(ps[0].name));
      ReplaceAbsent(template, Token(ps[0].name), values[0]);
      SubstituteNoToken(template, ps[1..], values[1..]);
    }
  }

  /** A template without `$` comes back unchanged whenever its parameters
      resolve, whatever their values. */
  lemma InterpolateNoToken(template: string, ps: Params, env: Env)
    requires '$' !in template
    requires AllResolve(ps, env)
    ensures Interpolate(template, ps, env) == Success(template)
  {
    SubstituteNoToken(template, ps, ResolveAll(ps, env).value);
  }

  /** A parameter that fails to resolve fails the interpolation even when the
      template never mentions it. */
  lemma UnreferencedParameterFails(template: string, ps: Params, env: Env, i: nat)
    requires i < |ps|
    requires GetValue(ps[i].definition, env).Failure?
    ensures Interpolate(template, ps, env).Failure?
    ensures '$' !in template ==> !Occurs(template, Token(ps[i].name))
  {
    if '$' !in template {
      FirstCharAbsent(template, Token(ps[i].name));
    }
  }

  /** An absent template is not interpolated: no parameter is resolved, so
      not even failing ones fail it. */
  lemma AbsentTemplateSkipsResolution(ps: Params, env: Env)
    ensures InterpolateOption(None, ps, env) == Success(None)
    ensures !AllResolve(ps, env) ==> InterpolateOption(Some(""), ps, env).Failure?
  {
  }

  /** With a single parameter, interpolation is one `str::replace` of its
      token, so every occurrence of the token in the template is replaced. */
  lemma SingleParameter(template: string, name: string, d: Parameter, value: string, env: Env)
    requires GetValue(d, env) == Success(value)
    ensures Interpolate(template, [Binding(name, d)], env) == Success(Replace(template, Token(name), value))
  {
    var ps := [Binding(name, d)];
    var values := ResolveAll(ps, env).value;
    assert values == [value];
    assert Substitute(template, ps, values)
      == Substitute(Replace(template, Token(name), value), [], []);
  }

  /** When one parameter name is a prefix of another, the result depends on
      the map's iteration order: `$hostname` with `host` = `a` and
      `hostname` = `b` gives `b` or `aname`. */
  lemma PrefixNamesDependOnOrder(env: Env)
    ensures Interpolate("$hostname", [Binding("hostname", Value("b")), Binding("host", Value("a"))], env) == Success("b")
    ensures Interpolate("$hostname", [Binding("host", Value("a")), Binding("hostname", Value("b"))], env) == Success("aname")
  {
    var host, hostname := Token("host"), Token("hostname");
    assert hostname == hostname + "";
    ReplaceHead("", hostname, "b");
    assert Replace(hostname, hostname, "b") == "b";
    assert Replace("b", host, "a") == "b";
    assert hostname == host + "name";
    ReplaceHead("name", host, "a");
    FirstCharAbsent("name", host);
    ReplaceAbsent("name", host, "a");
    assert Replace(hostname, host, "a") == "aname";
    assert Replace("aname", hostname, "b") == "aname";
    var ab := [Binding("hostname", Value("b")), Binding("host", Value("a"))];
    var ba := [Binding("host", Value("a")), Binding("hostname", Value("b"))];
    assert ResolveAll(ab, env).value == ["b", "a"];
    assert ResolveAll(ba, env).value == ["a", "b"];
    assert Substitute(hostname, ab, ["b", "a"]) == Substitute("b", ab[1..], ["a"]);
    assert Substitute("b", ab[1..], ["a"]) == Substitute("b", [], []);
    assert Substitute(hostname, ba, ["a", "b"]) == Substitute("aname", ba[1..], ["b"]);
    assert Substitute("aname", ba[1..], ["b"]) == Substitute("aname", [], []);
  }

  /** Replacement is a single left-to-right pass, so a token can remain in
      the output: `$$pp` with `p` bound to the empty string gives `$p`. */
  lemma TokenCanRemain(env: Env)
    ensures Interpolate("$$pp", [Binding("p", Value(""))], env) == Success("$p")
  {
    var p := Token("p");
    assert "$$pp" == ['$'] + (p + "p");
    assert (['$'] + (p + "p"))[..2] != p by {
      assert (['$'] + (p + "p"))[..2][1] == '$';
    }
    ReplaceSkipHead('$', p + "p", p, "");
    ReplaceHead("p", p, "");
    assert Replace("p", p, "") == "p";
    assert Replace("$$pp", p, "") == "$p";
    SingleParameter("$$pp", "p", Value(""), "", env);
  }
}
