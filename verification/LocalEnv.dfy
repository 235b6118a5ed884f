/** The scoped environment of `tools/helpers/cmd.py`: `Local.env`,
    `Local.path_prepend` and `Local.venv` as bracketed contexts over one mutable
    environment, with bodies that may raise. */
module LocalEnv {
  import opened Strings

  type Env = map<string, string>

  const PATHSEP := ':'

  /** A well-nested program: it looks at the environment, raises, handles what a
      body raises, and opens contexts around bodies. */
  datatype Program =
    | Observe
    | Raise
    | Then(first: Program, second: Program)
    | Try(tried: Program)
    | WithEnv(overrides: Env, body: Program)
    | WithPath(paths: seq<string>, body: Program)
    | WithVenv(dir: string, bin: string, isVenv: bool, body: Program)
  {
    function Size(): nat {
      match this
      case Observe => 0
      case Raise => 0
      case Then(a, b) => 1 + a.Size() + b.Size()
      case Try(p) => 1 + p.Size()
      case WithEnv(_, p) => 1 + p.Size()
      case WithPath(_, p) => 1 + p.Size()
      case WithVenv(_, _, _, p) => 3 + p.Size()
    }
  }

  /** The list of directories in `PATH`. */
  function PathOf(env: Env): seq<string> {
    Split(if "PATH" in env then env["PATH"] else "", PATHSEP)
  }

  function Prepended(env: Env, paths: seq<string>): Env {
    map["PATH" := Join(paths + PathOf(env), PATHSEP)]
  }

  /** The environments a program sees, and whether it raises. */
  datatype Meaning = Meaning(seen: seq<Env>, raised: bool)

  /** What a program should mean: each body runs in the environment of its
      context, and nothing outside changes. */
  function Denote(env: Env, p: Program): Meaning
    decreases p.Size()
  {
    match p
    case Observe => Meaning([env], false)
    case Raise => Meaning([], true)
    case Then(a, b) =>
      var first := Denote(env, a);
      if first.raised then first
      else
        var second := Denote(env, b);
        Meaning(first.seen + second.seen, second.raised)
    case Try(q) => Denote(env, q).(raised := false)
    case WithEnv(overrides, q) => Denote(env + overrides, q)
    case WithPath(paths, q) => Denote(env + Prepended(env, paths), q)
    case WithVenv(dir, bin, isVenv, q) =>
      var inner := WithEnv(map["VIRTUAL_ENV" := dir], q);
      assert inner.Size() == 1 + q.Size();
      if isVenv then Denote(env, WithPath([bin], inner)) else Meaning([], true)
  }

  class Local {
    var env: Env

    constructor (env: Env)
      ensures this.env == env
    {
      this.env := env;
    }

    /** Any program leaves the environment as it was, whether it raises or not, and
        sees in every context exactly what lexical scoping says. */
    method Run(p: Program) returns (m: Meaning)
      modifies this
      ensures env == old(env)
      ensures m == Denote(old(env), p)
      decreases p.Size(), 1
    {
      match p {
        case Observe => m := Meaning([env], false);
        case Raise => m := Meaning([], true);
        case Then(a, b) =>
          m := Run(a);
          if !m.raised {
            var second := Run(b);
            m := Meaning(m.seen + second.seen, second.raised);
          }
        case Try(q) =>
          m := Run(q);
          m := m.(raised := false);
        case WithEnv(overrides, q) => m := EnvContext(overrides, q);
        case WithPath(paths, q) => m := PathContext(paths, q);
        case WithVenv(dir, bin, isVenv, q) =>
          if !isVenv {
            return Meaning([], true);
          }
          m := PathContext([bin], WithEnv(map["VIRTUAL_ENV" := dir], q));
      }
    }

    /** `with local.env(**overrides)`: copy, update in place, run, restore the copy. */
    method EnvContext(overrides: Env, body: Program) returns (m: Meaning)
      modifies this
      ensures env == old(env)
      ensures m == Denote(old(env) + overrides, body)
      decreases body.Size(), 2
    {
      var prev := env;
      env := env + overrides;
      m := Run(body);
      env := prev;
    }

    /** `with local.path_prepend(*paths)`. */
    method PathContext(paths: seq<string>, body: Program) returns (m: Meaning)
      modifies this
      ensures env == old(env)
      ensures m == Denote(old(env) + Prepended(old(env), paths), body)
      decreases body.Size(), 3
    {
      var newPath := paths + PathOf(env);
      m := EnvContext(map["PATH" := Join(newPath, PATHSEP)], body);
    }
  }

  // ----- what is seen inside -----

  /** The environment inside nested contexts, outermost first. */
  function Nested(env: Env, contexts: seq<Env>): Env {
    if contexts == [] then env else Nested(env, contexts[..|contexts| - 1]) + contexts[|contexts| - 1]
  }

  function Wrap(contexts: seq<Env>, body: Program): Program {
    if contexts == [] then body else WithEnv(contexts[0], Wrap(contexts[1..], body))
  }

  lemma {:induction false} NestedHead(env: Env, contexts: seq<Env>)
    requires contexts != []
    ensures Nested(env, contexts) == Nested(env + contexts[0], contexts[1..])
  {
    if |contexts| == 1 {
      assert contexts[..0] == [] && contexts[1..] == [];
    } else {
      var front := contexts[..|contexts| - 1];
      NestedHead(env, front);
      assert contexts[1..][..|contexts| - 2] == front[1..];
      assert contexts[1..][|contexts| - 2] == contexts[|contexts| - 1];
    }
  }

  lemma {:induction false} WrapDenotes(env: Env, contexts: seq<Env>, body: Program)
    ensures Denote(env, Wrap(contexts, body)) == Denote(Nested(env, contexts), body)
    decreases |contexts|
  {
    if contexts == [] {
    } else {
      WrapDenotes(env + contexts[0], contexts[1..], body);
      NestedHead(env, contexts);
    }
  }

  /** Inside any nesting of contexts, a variable has the value of the innermost
      context that sets it, and its outer value if none does. */
  lemma {:induction false} InnermostWins(env: Env, contexts: seq<Env>, k: string, i: nat)
    requires i < |contexts| && k in contexts[i] && forall j :: i < j < |contexts| ==> k !in contexts[j]
    ensures k in Nested(env, contexts) && Nested(env, contexts)[k] == contexts[i][k]
    ensures Denote(env, Wrap(contexts, Observe)).seen == [Nested(env, contexts)]
    decreases |contexts|
  {
    WrapDenotes(env, contexts, Observe);
    if i < |contexts| - 1 {
      InnermostWins(env, contexts[..|contexts| - 1], k, i);
    }
  }

  lemma {:induction false} UnsetIsOuter(env: Env, contexts: seq<Env>, k: string)
    requires forall j :: 0 <= j < |contexts| ==> k !in contexts[j]
    ensures (k in Nested(env, contexts) <==> k in env) && (k in env ==> Nested(env, contexts)[k] == env[k])
    decreases |contexts|
  {
    if contexts == [] {
    } else {
      UnsetIsOuter(env, contexts[..|contexts| - 1], k);
    }
  }

  /** Inside `path_prepend` the path list is the given paths followed by the old
      list exactly when none of the given paths contains the separator. */
  lemma PathListInside(env: Env, paths: seq<string>)
    ensures PathOf(env + Prepended(env, paths)) == paths + PathOf(env) <==> forall p :: p in paths ==> PATHSEP !in p
  {
    var parts := paths + PathOf(env);
    SplitJoin(parts, PATHSEP);
    assert forall p :: p in paths ==> p in parts;
  }

  /** A prepended entry that holds the separator comes back as two. */
  lemma SeparatorSplitsEntry(env: Env)
    ensures PathOf(env + Prepended(env, ["/a:/b"])) != ["/a:/b"] + PathOf(env)
  {
    PathListInside(env, ["/a:/b"]);
    assert "/a:/b"[2] == PATHSEP;
    assert "/a:/b" in ["/a:/b"];
  }

  /** Prepending nothing leaves a set `PATH` as it is, to the letter. */
  lemma EmptyPrependKeepsPath(env: Env)
    requires "PATH" in env
    ensures env + Prepended(env, []) == env
  {
    assert [] + PathOf(env) == PathOf(env);
    JoinSplit(env["PATH"], PATHSEP);
  }

  /** An unset or empty `PATH` counts as one empty entry, which a prepend keeps. */
  lemma UnsetPathKeepsEmptyEntry(env: Env, path: string)
    requires "PATH" !in env && PATHSEP !in path
    ensures PathOf(env) == [""] && PathOf(env + Prepended(env, [path])) == [path, ""]
  {
    PathListInside(env, [path]);
  }

  /** Inside a virtual environment its directory comes first on the path, exactly
      when it does not contain the separator, and `VIRTUAL_ENV` names it; every
      other variable is as outside. */
  lemma VenvInside(env: Env, dir: string, bin: string)
    ensures var m := Denote(env, WithVenv(dir, bin, true, Observe));
      && |m.seen| == 1 && !m.raised
      && (PathOf(m.seen[0]) == [bin] + PathOf(env) <==> PATHSEP !in bin)
      && "VIRTUAL_ENV" in m.seen[0] && m.seen[0]["VIRTUAL_ENV"] == dir
      && forall k :: k != "PATH" && k != "VIRTUAL_ENV" ==>
           (k in m.seen[0] <==> k in env) && (k in env ==> m.seen[0][k] == env[k])
  {
    PathListInside(env, [bin]);
    var inside := env + Prepended(env, [bin]) + map["VIRTUAL_ENV" := dir];
    assert Denote(env, WithVenv(dir, bin, true, Observe)) == Meaning([inside], false) by {
      assert Denote(env, WithVenv(dir, bin, true, Observe)) ==
        Denote(env, WithPath([bin], WithEnv(map["VIRTUAL_ENV" := dir], Observe)));
      assert Denote(inside, Observe) == Meaning([inside], false);
    }
    assert PathOf(inside) == PathOf(env + Prepended(env, [bin]));
  }
}
