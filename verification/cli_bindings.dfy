/** How cli.js turns the command-line arguments into the bindings object the
    reduce builds (cli.js:48-59): `makeVariableFriendly`, the `pkg.import`
    split, the loading of each module and the `reduce` itself. */
module CliBindings {
  import opened Wrappers
  import opened Strings

  /** A character `/-|\.|\//g` replaces. */
  predicate IsUnfriendly(c: char)
  {
    c == '-' || c == '.' || c == '/'
  }

  /** `makeVariableFriendly`: every `-`, `.` and `/` becomes `_`. */
  function MakeVariableFriendly(s: string): (r: string)
    ensures |r| == |s|
    ensures forall i :: 0 <= i < |s| ==> !IsUnfriendly(r[i])
    ensures forall i :: 0 <= i < |s| && !IsUnfriendly(s[i]) ==> r[i] == s[i]
    ensures forall i :: 0 <= i < |s| && IsUnfriendly(s[i]) ==> r[i] == '_'
  {
    if |s| == 0 then []
    else [if IsUnfriendly(s[0]) then '_' else s[0]] + MakeVariableFriendly(s[1..])
  }

  /** A string `makeVariableFriendly` leaves alone. */
  predicate IsFriendly(s: string)
  {
    forall i :: 0 <= i < |s| ==> !IsUnfriendly(s[i])
  }

  /** The result is friendly, so a second pass changes nothing; a string is a
      fixed point exactly when it is already friendly. */
  lemma MakeVariableFriendlyFixedPoints(s: string)
    ensures IsFriendly(MakeVariableFriendly(s))
    ensures MakeVariableFriendly(MakeVariableFriendly(s)) == MakeVariableFriendly(s)
    ensures MakeVariableFriendly(s) == s <==> IsFriendly(s)
  {
    var r := MakeVariableFriendly(s);
    assert |MakeVariableFriendly(r)| == |r|;
    if IsFriendly(s) {
      assert |r| == |s|;
    }
  }

  /** The replacement works character by character, so it distributes over
      concatenation. */
  lemma {:induction false} MakeVariableFriendlyAppend(a: string, b: string)
    ensures MakeVariableFriendly(a + b) == MakeVariableFriendly(a) + MakeVariableFriendly(b)
  {
    if |a| > 0 {
      assert (a + b)[1..] == a[1..] + b;
      MakeVariableFriendlyAppend(a[1..], b);
    }
  }

  /** What one command-line argument asks for: the module to require and,
      after a dot, the member to bind. */
  datatype PackageSpec = PackageSpec(require: string, importName: Option<string>)

  predicate IsDot(c: char)
  {
    c == '.'
  }

  /** The spec `start` builds from one argument: without a dot the whole
      argument is the module; with one, `str.split('.')` gives the module
      before the first dot and the member between it and the next dot (or the
      end), and anything after a second dot is ignored. */
  function ParseSpec(s: string): (r: PackageSpec)
    ensures !Contains(s, ".") ==> r == PackageSpec(s, None)
    ensures Contains(s, ".") ==> r.importName.Some? && SplitsAt(s, r.require, r.importName.value)
  {
    var i := Span(s, 0, IsDot, false);
    if i == |s| then
      assert !Contains(s, ".") by {
        forall k | 0 <= k < |s| ensures !OccursAt(s, ".", k) {
          assert !IsDot(s[k]);
        }
      }
      PackageSpec(s, None)
    else
      DottedSpec(s, i);
      var pieces := Split(s, IsDot);
      PackageSpec(pieces[0], Some(pieces[1]))
  }

  /** When the first dot of `s` is at `i`, the first two pieces of
      `split('.')` are the text before it and the dot-free text after it. */
  lemma DottedSpec(s: string, i: nat)
    requires i < |s| && i == Span(s, 0, IsDot, false)
    ensures Contains(s, ".")
    ensures |Split(s, IsDot)| >= 2 && SplitsAt(s, Split(s, IsDot)[0], Split(s, IsDot)[1])
  {
    assert s[i..i + 1] == ".";
    assert OccursAt(s, ".", i);
    var rest := s[i + 1..];
    var j := Span(rest, 0, IsDot, false);
    SplitAtFirstDot(s, i, j);
    SplitsAtFirstDot(s, i, j);
  }

  /** The pieces of `split('.')` around the first dot. */
  lemma SplitAtFirstDot(s: string, i: nat, j: nat)
    requires i < |s| && i == Span(s, 0, IsDot, false)
    requires j == Span(s[i + 1..], 0, IsDot, false)
    ensures |Split(s, IsDot)| >= 2
    ensures Split(s, IsDot)[0] == s[..i] && Split(s, IsDot)[1] == s[i + 1..][..j]
  {
    var rest := s[i + 1..];
    assert Split(s, IsDot) == [s[..i]] + Split(rest, IsDot);
    assert Split(rest, IsDot)[0] == rest[..j];
  }

  /** The text before the first dot and the dot-free run after it split `s`. */
  lemma SplitsAtFirstDot(s: string, i: nat, j: nat)
    requires i < |s| && i == Span(s, 0, IsDot, false)
    requires j == Span(s[i + 1..], 0, IsDot, false)
    ensures SplitsAt(s, s[..i], s[i + 1..][..j])
  {
    FirstDotParts(s, i, j);
    FirstDotJoin(s, i, j);
    var n := i + 1 + j;
    assert s[..n] <= s;
    assert n < |s| ==> s[n] == s[i + 1..][j] && IsDot(s[i + 1..][j]);
  }

  /** Neither the text before the first dot nor the run after it holds a dot. */
  lemma FirstDotParts(s: string, i: nat, j: nat)
    requires i < |s| && i == Span(s, 0, IsDot, false)
    requires j == Span(s[i + 1..], 0, IsDot, false)
    ensures IsDotFree(s[..i]) && IsDotFree(s[i + 1..][..j])
  {
    var rest := s[i + 1..];
    var r, m := s[..i], rest[..j];
    forall k | 0 <= k < |r| ensures r[k] != '.' {
      assert !IsDot(s[k]);
    }
    forall k | 0 <= k < |m| ensures m[k] != '.' {
      assert !IsDot(rest[k]);
    }
  }

  /** The text before the first dot, the dot and the run after it are a
      prefix of `s`. */
  lemma FirstDotJoin(s: string, i: nat, j: nat)
    requires i < |s| && i == Span(s, 0, IsDot, false)
    requires j == Span(s[i + 1..], 0, IsDot, false)
    ensures s[..i] + "." + s[i + 1..][..j] == s[..i + 1 + j]
  {
    var rest := s[i + 1..];
    var r, m := s[..i], rest[..j];
    var n := i + 1 + j;
    forall k | 0 <= k < n ensures (r + "." + m)[k] == s[k] {
      if k < i {
        assert (r + "." + m)[k] == r[k];
      } else if k == i {
        assert (r + "." + m)[k] == '.';
        assert IsDot(s[i]);
      } else {
        assert (r + "." + m)[k] == m[k - i - 1] == rest[k - i - 1];
      }
    }
  }

  /** `s` starts with `require`, a dot and `member`, neither part holds a dot,
      and the member ends at the end of `s` or at a further dot. */
  predicate SplitsAt(s: string, require: string, member: string)
  {
    && IsDotFree(require) && IsDotFree(member)
    && require + "." + member <= s
    && (|require| + 1 + |member| == |s| || s[|require| + 1 + |member|] == '.')
  }

  predicate IsDotFree(s: string)
  {
    forall i :: 0 <= i < |s| ==> s[i] != '.'
  }

  /** There is only one way to split an argument, so `ParseSpec`'s contract
      pins its result down. */
  lemma SplitsAtUnique(s: string, r1: string, m1: string, r2: string, m2: string)
    requires SplitsAt(s, r1, m1) && SplitsAt(s, r2, m2)
    ensures r1 == r2 && m1 == m2
  {
    SplitsAtPrefix(s, r1, m1, r2, m2);
    SplitsAtPrefix(s, r2, m2, r1, m1);
    assert r1 == r2 by {
      assert r1 == s[..|r1|] && r2 == s[..|r2|];
    }
    var t := s[|r1| + 1..];
    assert m1 == t[..|m1|] && m2 == t[..|m2|] by {
      assert s[..|r1| + 1 + |m1|] == r1 + "." + m1;
      assert s[..|r2| + 1 + |m2|] == r2 + "." + m2;
    }
    SplitsAtMember(s, r1, m1, m2);
    SplitsAtMember(s, r1, m2, m1);
  }

  lemma SplitsAtPrefix(s: string, r1: string, m1: string, r2: string, m2: string)
    requires SplitsAt(s, r1, m1) && SplitsAt(s, r2, m2)
    ensures |r1| <= |r2|
  {
    assert (r2 + "." + m2)[|r2|] == '.';
    assert s[|r2|] == '.';
    assert forall k :: 0 <= k < |r1| ==> r1[k] == (r1 + "." + m1)[k] == s[k];
  }

  lemma SplitsAtMember(s: string, r: string, m1: string, m2: string)
    requires SplitsAt(s, r, m1) && SplitsAt(s, r, m2)
    ensures |m1| <= |m2|
  {
    assert forall k :: 0 <= k < |m1| ==> m1[k] == (r + "." + m1)[|r| + 1 + k] == s[|r| + 1 + k];
  }

  /** The argument text a spec comes from. */
  function SpecText(p: PackageSpec): string
  {
    match p.importName
    case None => p.require
    case Some(m) => p.require + "." + m
  }

  /** Round trip: a spec whose parts hold no dot is read back from its text. */
  lemma ParseSpecText(p: PackageSpec)
    requires IsDotFree(p.require)
    requires p.importName.Some? ==> IsDotFree(p.importName.value)
    ensures ParseSpec(SpecText(p)) == p
  {
    var s := SpecText(p);
    match p.importName
    case None =>
      assert !Contains(s, ".") by {
        forall k | 0 <= k < |s| ensures !OccursAt(s, ".", k) {
          assert s[k] != '.';
        }
      }
    case Some(m) =>
      assert s[|p.require|] == '.';
      assert OccursAt(s, ".", |p.require|);
      var r := ParseSpec(s);
      assert SplitsAt(s, p.require, m);
      SplitsAtUnique(s, r.require, r.importName.value, p.require, m);
  }

  /** An argument with a second dot loses everything from it on. */
  lemma ParseSpecDropsDeeperPath(require: string, member: string, rest: string)
    requires IsDotFree(require) && IsDotFree(member)
    ensures ParseSpec(require + "." + member + "." + rest) == PackageSpec(require, Some(member))
  {
    var s := require + "." + member + "." + rest;
    assert s[|require|] == '.';
    assert OccursAt(s, ".", |require|);
    var r := ParseSpec(s);
    assert s[|require| + 1 + |member|] == '.';
    assert require + "." + member <= s;
    assert SplitsAt(s, require, member);
    SplitsAtUnique(s, r.require, r.importName.value, require, member);
  }

  /** `cli.input.map(...)`: one spec per argument, in order. */
  function ParseSpecs(inputs: seq<string>): (specs: seq<PackageSpec>)
    ensures |specs| == |inputs|
    ensures forall i :: 0 <= i < |inputs| ==> specs[i] == ParseSpec(inputs[i])
  {
    if |inputs| == 0 then [] else [ParseSpec(inputs[0])] + ParseSpecs(inputs[1..])
  }

  /** A value in the bindings object: the loaded module itself, or the
      named member of it (`package[p.import]`). */
  datatype Binding<P> = Whole(pkg: P) | Member(pkg: P, name: string)

  /** `if (p.import)`: a member is bound only when the name is non-empty. */
  predicate BindsMember(p: PackageSpec)
  {
    p.importName.Some? && |p.importName.value| > 0
  }

  /** The property the reduce writes for one spec. */
  function BindingKey(p: PackageSpec): (key: string)
    ensures BindsMember(p) ==> key == p.importName.value
    ensures !BindsMember(p) ==> key == MakeVariableFriendly(p.require)
  {
    if BindsMember(p) then p.importName.value else MakeVariableFriendly(p.require)
  }

  /** The value the reduce writes for one spec and its loaded module. */
  function BindingOf<P>(p: PackageSpec, pkg: P): (b: Binding<P>)
    ensures b.pkg == pkg
    ensures b.Member? <==> BindsMember(p)
    ensures b.Member? ==> b.name == BindingKey(p)
  {
    if BindsMember(p) then Member(pkg, p.importName.value) else Whole(pkg)
  }

  /** `packages.reduce(...)` from `{}`: each spec writes its key in turn. */
  function Bindings<P>(loaded: seq<(PackageSpec, P)>): (b: map<string, Binding<P>>)
    ensures forall k :: k in b <==> exists i :: 0 <= i < |loaded| && BindingKey(loaded[i].0) == k
  {
    if |loaded| == 0 then map[]
    else
      var n := |loaded| - 1;
      var init := loaded[..n];
      assert forall i :: 0 <= i < n ==> init[i] == loaded[i];
      Bindings(init)[BindingKey(loaded[n].0) := BindingOf(loaded[n].0, loaded[n].1)]
  }

  /** A key holds what the last spec writing it put there. */
  lemma {:induction false} BindingsLastWriter<P>(loaded: seq<(PackageSpec, P)>, i: nat)
    requires i < |loaded| && LastToWrite(loaded, i)
    ensures BindingKey(loaded[i].0) in Bindings(loaded)
    ensures Bindings(loaded)[BindingKey(loaded[i].0)] == BindingOf(loaded[i].0, loaded[i].1)
  {
    var n := |loaded| - 1;
    var init := loaded[..n];
    var key := BindingKey(loaded[n].0);
    assert Bindings(loaded) == Bindings(init)[key := BindingOf(loaded[n].0, loaded[n].1)];
    if i < n {
      LastToWriteInit(loaded, i);
      BindingsLastWriter(init, i);
      assert key != BindingKey(loaded[i].0);
    }
  }

  /** Dropping the last spec keeps the earlier specs' last writes. */
  lemma LastToWriteInit<P>(loaded: seq<(PackageSpec, P)>, i: nat)
    requires i < |loaded| - 1 && LastToWrite(loaded, i)
    ensures loaded[..|loaded| - 1][i] == loaded[i]
    ensures LastToWrite(loaded[..|loaded| - 1], i)
  {
    var init := loaded[..|loaded| - 1];
    forall j | i < j < |init| ensures BindingKey(init[j].0) != BindingKey(init[i].0) {
      assert init[j] == loaded[j];
    }
  }

  /** No later spec writes the same key as spec `i`. */
  ghost predicate LastToWrite<P>(loaded: seq<(PackageSpec, P)>, i: int)
    requires 0 <= i < |loaded|
  {
    forall j :: i < j < |loaded| ==> BindingKey(loaded[j].0) != BindingKey(loaded[i].0)
  }

  /** The specs paired with what `load` gives for each module name: `require`,
      or `trymodule` when that throws; `Promise.all` keeps the order. */
  function Load<P>(specs: seq<PackageSpec>, load: string -> P): (loaded: seq<(PackageSpec, P)>)
    ensures |loaded| == |specs|
    ensures forall i :: 0 <= i < |specs| ==> loaded[i] == (specs[i], load(specs[i].require))
  {
    if |specs| == 0 then [] else [(specs[0], load(specs[0].require))] + Load(specs[1..], load)
  }

  /** `Promise.all` over the loads when a module can fail to load: `load`
      gives `None` when both `require` and `trymodule` fail, and then the
      whole promise rejects, so no bindings are built; otherwise each spec is
      paired with its module, in order. */
  function LoadAll<P>(specs: seq<PackageSpec>, load: string -> Option<P>): (r: Option<seq<(PackageSpec, P)>>)
    ensures r.None? <==> exists i :: 0 <= i < |specs| && load(specs[i].require).None?
    ensures r.Some? ==> |r.value| == |specs|
    ensures r.Some? ==> forall i :: 0 <= i < |specs| ==> r.value[i] == (specs[i], load(specs[i].require).value)
  {
    if |specs| == 0 then Some([])
    else match load(specs[0].require)
      case None => None
      case Some(p) =>
        match LoadAll(specs[1..], load)
        case None =>
          ghost var i :| 0 <= i < |specs[1..]| && load(specs[1..][i].require).None?;
          assert load(specs[i + 1].require).None?;
          None
        case Some(rest) =>
          assert forall i :: 1 <= i < |specs| ==> specs[i] == specs[1..][i - 1];
          Some([(specs[0], p)] + rest)
  }

  /** When every load succeeds, `LoadAll` is `Load` with the loaded modules. */
  lemma {:induction false} LoadAllSucceeds<P>(specs: seq<PackageSpec>, load: string -> Option<P>, modules: string -> P)
    requires forall name :: load(name) == Some(modules(name))
    ensures LoadAll(specs, load) == Some(Load(specs, modules))
  {
    if |specs| > 0 {
      LoadAllSucceeds(specs[1..], load, modules);
    }
  }

  /** The bindings object the reduce builds (cli.js:48-59) for the arguments,
      when every module loads. */
  function BindingsForInputs<P>(inputs: seq<string>, load: string -> P): map<string, Binding<P>>
  {
    Bindings(Load(ParseSpecs(inputs), load))
  }

  /** The last argument to mention a name decides what it is bound to: the
      named member of the module before the dot, or the whole module under
      its friendly name. */
  lemma LastArgumentWins<P>(inputs: seq<string>, load: string -> P, i: nat)
    requires i < |inputs|
    requires forall j :: i < j < |inputs| ==> BindingKey(ParseSpec(inputs[j])) != BindingKey(ParseSpec(inputs[i]))
    ensures var p := ParseSpec(inputs[i]);
      BindingsForInputs(inputs, load)[BindingKey(p)] == BindingOf(p, load(p.require))
  {
    var loaded := Load(ParseSpecs(inputs), load);
    assert LastToWrite(loaded, i);
    BindingsLastWriter(loaded, i);
  }

  /** A name is bound exactly when some argument writes it. */
  lemma BoundNames<P>(inputs: seq<string>, load: string -> P, key: string)
    ensures key in BindingsForInputs(inputs, load) <==>
      exists i :: 0 <= i < |inputs| && BindingKey(ParseSpec(inputs[i])) == key
  {
    var loaded := Load(ParseSpecs(inputs), load);
    if key in BindingsForInputs(inputs, load) {
      var i :| 0 <= i < |loaded| && BindingKey(loaded[i].0) == key;
      assert BindingKey(ParseSpec(inputs[i])) == key;
    }
    if exists i :: 0 <= i < |inputs| && BindingKey(ParseSpec(inputs[i])) == key {
      var i :| 0 <= i < |inputs| && BindingKey(ParseSpec(inputs[i])) == key;
      assert BindingKey(loaded[i].0) == key;
    }
  }

  /** `pode lodash.map`: an argument with a non-empty member binds that
      member of the module named before the dot, under the member's name. */
  lemma MemberArgument<P>(require: string, member: string, load: string -> P)
    requires IsDotFree(require) && IsDotFree(member) && |member| > 0
    ensures BindingsForInputs([require + "." + member], load) == map[member := Member(load(require), member)]
  {
    var p := PackageSpec(require, Some(member));
    ParseSpecText(p);
    assert ParseSpecs([require + "." + member]) == [p];
    assert Load([p], load) == [(p, load(require))];
  }

  /** `pode babel-register`: an argument without a dot binds the whole module
      under its friendly name. */
  lemma WholeArgument<P>(name: string, load: string -> P)
    requires IsDotFree(name)
    ensures BindingsForInputs([name], load) == map[MakeVariableFriendly(name) := Whole(load(name))]
  {
    var p := PackageSpec(name, None);
    ParseSpecText(p);
    assert ParseSpecs([name]) == [p];
    assert Load([p], load) == [(p, load(name))];
  }

  /** `pode lodash.`: the empty member name is falsy, so the whole module is
      bound under its friendly name, as if there were no dot. */
  lemma EmptyMemberBindsWhole<P>(require: string, load: string -> P)
    requires IsDotFree(require)
    ensures BindingsForInputs([require + "."], load) == BindingsForInputs([require], load)
  {
    var p := PackageSpec(require, Some(""));
    ParseSpecText(p);
    assert SpecText(p) == require + ".";
    assert ParseSpecs([require + "."]) == [p];
    assert Load([p], load) == [(p, load(require))];
    WholeArgument(require, load);
  }

  /** Names joined by `-`, `.` or `/` are joined by `_` instead, as
      `babel-register` becomes `babel_register`. */
  lemma FriendlyJoin(a: string, sep: char, b: string)
    requires IsFriendly(a) && IsFriendly(b) && IsUnfriendly(sep)
    ensures MakeVariableFriendly(a + [sep] + b) == a + "_" + b
  {
    MakeVariableFriendlyAppend(a + [sep], b);
    MakeVariableFriendlyAppend(a, [sep]);
    MakeVariableFriendlyFixedPoints(a);
    MakeVariableFriendlyFixedPoints(b);
  }
}
