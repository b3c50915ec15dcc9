/** The editing of an app's environment variables by `nanobox dev evar add`
    and `nanobox dev evar remove` (commands/dev/env.go): arguments are
    comma-separated lists of `KEY:value` pairs or of keys, keys are stored
    uppercased, and pairs that do not split into exactly a key and a value
    are ignored. The stored map goes in and the edited map comes out. */
module EnvVars {
  import opened Outcomes

  /** The variables of an app, `models.EnvVars`. */
  type Vars = map<string, string>

  /** `strings.Split(s, [sep])`: the pieces of `s` between the separators,
      one more piece than there are separators (so `""` gives `[""]`). */
  function Split(s: string, sep: char): (parts: seq<string>)
    ensures |parts| == Count(s, sep) + 1
    ensures forall i :: 0 <= i < |parts| ==> sep !in parts[i]
    ensures Join(parts, sep) == s
  {
    if s == [] then [""]
    else
      var rest := Split(s[1..], sep);
      if s[0] == sep then [""] + rest
      else
        assert s == [s[0]] + s[1..];
        [[s[0]] + rest[0]] + rest[1..]
  }

  /** How often `c` occurs in `s`. */
  function Count(s: string, c: char): nat
  {
    if s == [] then 0 else (if s[0] == c then 1 else 0) + Count(s[1..], c)
  }

  /** `strings.Join(parts, [sep])`. */
  function Join(parts: seq<string>, sep: char): string
    requires |parts| >= 1
  {
    if |parts| == 1 then parts[0] else parts[0] + [sep] + Join(parts[1..], sep)
  }

  /** Splitting undoes joining pieces that hold no separator: `Split` and
      `Join` are inverse to each other. */
  lemma {:induction false} SplitJoin(parts: seq<string>, sep: char)
    requires |parts| >= 1
    requires forall i :: 0 <= i < |parts| ==> sep !in parts[i]
    ensures Split(Join(parts, sep), sep) == parts
    decreases |parts|, |parts[0]|
  {
    var p := parts[0];
    if p == [] {
      if |parts| > 1 {
        SplitJoin(parts[1..], sep);
        assert Join(parts, sep) == [sep] + Join(parts[1..], sep);
        assert ([sep] + Join(parts[1..], sep))[1..] == Join(parts[1..], sep);
      }
    } else {
      var shorter := [p[1..]] + parts[1..];
      SplitJoin(shorter, sep);
      assert shorter[1..] == parts[1..];
      assert Join(parts, sep) == [p[0]] + Join(shorter, sep);
      assert ([p[0]] + Join(shorter, sep))[1..] == Join(shorter, sep);
      assert [p[0]] + p[1..] == p;
    }
  }

  /** A string with no separator is its own single piece. */
  lemma Unsplit(s: string, sep: char)
    requires sep !in s
    ensures Split(s, sep) == [s]
  {
    SplitJoin([s], sep);
  }

  /** `unicode.ToUpper` restricted to ASCII: the letters a-z become A-Z. */
  function UpperChar(c: char): char
  {
    if 'a' <= c <= 'z' then (c as int - 32) as char else c
  }

  /** `strings.ToUpper(s)` on ASCII text: each lower-case letter becomes
      its upper case, 32 code points lower, and every other character stays. */
  function Upper(s: string): (u: string)
    ensures |u| == |s|
    ensures forall i {:trigger u[i]} :: 0 <= i < |s| ==>
      && ('a' <= s[i] <= 'z' ==> u[i] as int == s[i] as int - 32)
      && (!('a' <= s[i] <= 'z') ==> u[i] == s[i])
  {
    if s == [] then [] else [UpperChar(s[0])] + Upper(s[1..])
  }

  /** An uppercased key has no lower-case letter left. */
  lemma {:induction false} UpperHasNoLower(s: string)
    ensures forall i :: 0 <= i < |Upper(s)| ==> !('a' <= Upper(s)[i] <= 'z')
  {
    if s != [] {
      UpperHasNoLower(s[1..]);
      assert Upper(s) == [UpperChar(s[0])] + Upper(s[1..]);
    }
  }

  /** Uppercasing twice is uppercasing once, so a key typed in upper case
      names the same variable as the stored one. */
  lemma {:induction false} UpperIdempotent(s: string)
    ensures Upper(Upper(s)) == Upper(s)
  {
    if s != [] {
      UpperIdempotent(s[1..]);
      assert Upper(s)[1..] == Upper(s[1..]);
    }
  }

  /** The two keys are the same word typed in possibly different ASCII
      case: position by position the characters are equal, or one is the
      lower-case letter whose upper case is the other. */
  predicate SameUpToCase(a: string, b: string)
  {
    && |a| == |b|
    && forall i :: 0 <= i < |a| ==>
         || a[i] == b[i]
         || ('a' <= a[i] <= 'z' && b[i] as int == a[i] as int - 32)
         || ('a' <= b[i] <= 'z' && a[i] as int == b[i] as int - 32)
  }

  /** Two keys name the same stored variable exactly when they differ only
      in the case of ASCII letters. */
  lemma SameKey(a: string, b: string)
    ensures Upper(a) == Upper(b) <==> SameUpToCase(a, b)
  {
    if Upper(a) == Upper(b) {
      forall i | 0 <= i < |a|
        ensures || a[i] == b[i]
                || ('a' <= a[i] <= 'z' && b[i] as int == a[i] as int - 32)
                || ('a' <= b[i] <= 'z' && a[i] as int == b[i] as int - 32)
      {
        assert Upper(a)[i] == Upper(b)[i];
      }
    }
    if SameUpToCase(a, b) {
      forall i | 0 <= i < |a| ensures Upper(a)[i] == Upper(b)[i] { }
    }
  }

  /** How `evar add` reads one comma-separated piece: exactly two parts
      around `:` make the uppercased key and the value. */
  function ParsePair(pair: string): Option<(string, string)>
  {
    var parts := Split(pair, ':');
    if |parts| == 2 then Some((Upper(parts[0]), parts[1])) else None
  }

  /** A piece is read as a pair exactly when it holds one colon; with no
      colon or more than one (`""`, `"A"`, `"A:b:c"`) it is ignored. */
  lemma PairNeedsOneColon(pair: string)
    ensures ParsePair(pair).Some? <==> Count(pair, ':') == 1
  {
  }

  /** A piece `key:value` with no other colon sets the uppercased key to the
      value, which keeps its case. */
  lemma PairParts(key: string, value: string)
    requires ':' !in key && ':' !in value
    ensures ParsePair(key + [':'] + value) == Some((Upper(key), value))
  {
    SplitJoin([key, value], ':');
    assert Join([key, value], ':') == key + [':'] + Join([value], ':');
  }

  /** The comma-separated pieces of all the arguments, in argument order and
      then comma order. */
  function Pieces(args: seq<string>): seq<string>
  {
    if args == [] then [] else Pieces(args[..|args| - 1]) + Split(args[|args| - 1], ',')
  }

  /** The variables after reading the pieces `ps` one by one into `evars`. */
  function AddPairs(evars: Vars, ps: seq<string>): Vars
  {
    if ps == [] then evars
    else
      var before := AddPairs(evars, ps[..|ps| - 1]);
      match ParsePair(ps[|ps| - 1])
      case Some((k, v)) => before[k := v]
      case None => before
  }

  /** The value the last piece of `ps` that is a pair for `k` gives it, if
      any piece does. */
  function LastSet(ps: seq<string>, k: string): Option<string>
  {
    if ps == [] then None
    else if ParsePair(ps[|ps| - 1]).Some? && ParsePair(ps[|ps| - 1]).value.0 == k then
      Some(ParsePair(ps[|ps| - 1]).value.1)
    else LastSet(ps[..|ps| - 1], k)
  }

  /** `LastSet` finds the last pair for `k`: its value comes from a pair for
      `k` after which no pair is for `k`; and no pair is for `k` when it
      finds none. */
  lemma {:induction false} LastSetIsLast(ps: seq<string>, k: string)
    ensures LastSet(ps, k).None? ==>
      forall i :: 0 <= i < |ps| ==> ParsePair(ps[i]) == None || ParsePair(ps[i]).value.0 != k
    ensures LastSet(ps, k).Some? ==>
      exists i :: 0 <= i < |ps| && ParsePair(ps[i]) == Some((k, LastSet(ps, k).value)) &&
        forall j :: i < j < |ps| ==> ParsePair(ps[j]) == None || ParsePair(ps[j]).value.0 != k
  {
    if ps != [] {
      var init := ps[..|ps| - 1];
      LastSetIsLast(init, k);
      var last := ParsePair(ps[|ps| - 1]);
      if last.Some? && last.value.0 == k {
        assert ParsePair(ps[|ps| - 1]) == Some((k, LastSet(ps, k).value));
      } else if LastSet(ps, k).Some? {
        var i :| 0 <= i < |init| && ParsePair(init[i]) == Some((k, LastSet(init, k).value)) &&
          forall j :: i < j < |init| ==> ParsePair(init[j]) == None || ParsePair(init[j]).value.0 != k;
        assert ps[i] == init[i];
        forall j | i < j < |ps|
          ensures ParsePair(ps[j]) == None || ParsePair(ps[j]).value.0 != k
        {
          if j < |ps| - 1 { assert ps[j] == init[j]; }
        }
      } else {
        forall i | 0 <= i < |ps|
          ensures ParsePair(ps[i]) == None || ParsePair(ps[i]).value.0 != k
        {
          if i < |ps| - 1 { assert ps[i] == init[i]; }
        }
      }
    }
  }

  /** What `evar add` leaves: a key a pair sets holds the value of the last
      such pair, and every other variable is kept as it was. */
  lemma {:induction false} AddPairsMeaning(evars: Vars, ps: seq<string>, k: string)
    ensures LastSet(ps, k).Some? ==>
      k in AddPairs(evars, ps) && AddPairs(evars, ps)[k] == LastSet(ps, k).value
    ensures LastSet(ps, k).None? ==>
      (k in AddPairs(evars, ps) <==> k in evars) &&
      (k in evars ==> AddPairs(evars, ps)[k] == evars[k])
  {
    if ps != [] {
      AddPairsMeaning(evars, ps[..|ps| - 1], k);
    }
  }

  /** `envAddFn` from reading the stored variables to storing them: every
      piece of every argument is read in turn into the map. */
  method EnvAdd(evars: Vars, args: seq<string>) returns (r: Vars)
    ensures r == AddPairs(evars, Pieces(args))
  {
    r := evars;
    for i := 0 to |args|
      invariant r == AddPairs(evars, Pieces(args[..i]))
    {
      var pairs := Split(args[i], ',');
      ghost var before := Pieces(args[..i]);
      assert before + pairs[..0] == before;
      for j := 0 to |pairs|
        invariant r == AddPairs(evars, before + pairs[..j])
      {
        var parts := Split(pairs[j], ':');
        AddOne(evars, before, pairs, j);
        if |parts| == 2 {
          r := r[Upper(parts[0]) := parts[1]];
        }
      }
      PiecesNext(args, i);
    }
    assert args[..|args|] == args;
  }

  /** Reading one more piece updates the variables as the piece says. */
  lemma AddOne(evars: Vars, before: seq<string>, pieces: seq<string>, j: nat)
    requires j < |pieces|
    ensures var parts := Split(pieces[j], ':');
      AddPairs(evars, before + pieces[..j + 1]) ==
        if |parts| == 2 then AddPairs(evars, before + pieces[..j])[Upper(parts[0]) := parts[1]]
        else AddPairs(evars, before + pieces[..j])
  {
    var done := before + pieces[..j];
    assert before + pieces[..j + 1] == done + [pieces[j]];
    assert (done + [pieces[j]])[..|done|] == done;
  }

  /** The pieces of one more argument follow those before it. */
  lemma PiecesNext(args: seq<string>, i: nat)
    requires i < |args|
    ensures var pieces := Split(args[i], ',');
      Pieces(args[..i + 1]) == Pieces(args[..i]) + pieces[..|pieces|]
  {
    assert args[..i + 1][..i] == args[..i];
    assert Split(args[i], ',')[..|Split(args[i], ',')|] == Split(args[i], ',');
  }

  /** The uppercased keys of `ks`. */
  function Uppers(ks: seq<string>): set<string>
  {
    if ks == [] then {} else Uppers(ks[..|ks| - 1]) + {Upper(ks[|ks| - 1])}
  }

  /** `Uppers` holds the uppercased key of every key of `ks`, and nothing
      else. */
  lemma {:induction false} UppersMeaning(ks: seq<string>, x: string)
    ensures x in Uppers(ks) <==> exists k :: k in ks && x == Upper(k)
  {
    if ks != [] {
      var init := ks[..|ks| - 1];
      UppersMeaning(init, x);
      assert ks == init + [ks[|ks| - 1]];
      if x in Uppers(init) {
        var k :| k in init && x == Upper(k);
        assert k in ks;
      } else if x == Upper(ks[|ks| - 1]) {
        assert ks[|ks| - 1] in ks;
      } else {
        forall k | k in ks ensures x != Upper(k) {
          if k != ks[|ks| - 1] { assert k in init; }
        }
      }
    }
  }

  /** Deleting one more key removes one more uppercased key. */
  lemma RemoveOne(evars: Vars, before: seq<string>, keys: seq<string>, j: nat)
    requires j < |keys|
    ensures (evars - Uppers(before + keys[..j])) - {Upper(keys[j])} ==
      evars - Uppers(before + keys[..j + 1])
  {
    var done := before + keys[..j];
    assert before + keys[..j + 1] == done + [keys[j]];
    assert (done + [keys[j]])[..|done|] == done;
  }

  /** `envRemoveFn` from reading the stored variables to storing them: the
      variable of every uppercased key is deleted (when there is one), and
      every other variable is kept. */
  method EnvRemove(evars: Vars, args: seq<string>) returns (r: Vars)
    ensures r == evars - Uppers(Pieces(args))
  {
    r := evars;
    for i := 0 to |args|
      invariant r == evars - Uppers(Pieces(args[..i]))
    {
      var keys := Split(args[i], ',');
      ghost var before := Pieces(args[..i]);
      assert before + keys[..0] == before;
      for j := 0 to |keys|
        invariant r == evars - Uppers(before + keys[..j])
      {
        RemoveOne(evars, before, keys, j);
        r := r - {Upper(keys[j])};
      }
      PiecesNext(args, i);
    }
    assert args[..|args|] == args;
  }

  /** A variable added under one spelling of its key is stored with its
      value, and removing it under any spelling that differs only in ASCII
      case leaves the other variables as they were. */
  lemma RemoveUndoesAdd(evars: Vars, key: string, value: string, other: string)
    requires ':' !in key && ':' !in value && ',' !in key && ',' !in value && ',' !in other
    requires SameUpToCase(other, key)
    ensures var added := AddPairs(evars, Pieces([key + [':'] + value]));
      Upper(key) in added && added[Upper(key)] == value &&
      added - Uppers(Pieces([other])) == evars - {Upper(key)}
  {
    SameKey(other, key);
    RemoveUndoesAddUpper(evars, key, value, other);
  }

  /** `RemoveUndoesAdd`, for keys already known to have the same upper case. */
  lemma RemoveUndoesAddUpper(evars: Vars, key: string, value: string, other: string)
    requires ':' !in key && ':' !in value && ',' !in key && ',' !in value && ',' !in other
    requires Upper(other) == Upper(key)
    ensures var added := AddPairs(evars, Pieces([key + [':'] + value]));
      Upper(key) in added && added[Upper(key)] == value &&
      added - Uppers(Pieces([other])) == evars - {Upper(key)}
  {
    var pair := key + [':'] + value;
    Unsplit(pair, ',');
    Unsplit(other, ',');
    assert Pieces([pair]) == [pair];
    assert Pieces([other]) == [other];
    PairParts(key, value);
    assert AddPairs(evars, [pair]) == evars[Upper(key) := value];
    assert Uppers([other]) == {Upper(key)};
  }

  /** Removing is idempotent: once the keys are removed, removing them again
      changes nothing, and neither does removing a key that is absent. */
  lemma RemoveIdempotent(evars: Vars, args: seq<string>)
    ensures var once := evars - Uppers(Pieces(args));
      once - Uppers(Pieces(args)) == once &&
      forall k :: k in Pieces(args) ==> Upper(k) !in once
  {
    forall k | k in Pieces(args) ensures Upper(k) in Uppers(Pieces(args)) {
      UppersMeaning(Pieces(args), Upper(k));
    }
  }
}
