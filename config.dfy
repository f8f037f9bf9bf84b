/**
 * The target-location list of the monitor's configuration: the comma-separated
 * `TARGET_LOCATIONS` setting, each piece stripped and lower-cased, empty pieces dropped.
 */
module Config {
  import opened Wrappers
  import opened AsciiText

  /** The value used when `TARGET_LOCATIONS` is not set. */
  const DefaultTargets: string := "jakarta,singapore"

  /** `t.strip().lower()`: how one configured name is normalised. */
  function CleanTarget(p: string): (r: string)
    ensures IsTrimmed(r) && IsLowerCase(r)
    ensures r == [] <==> Trim(p) == []
  {
    LowerKeepsTrimmed(Trim(p));
    LowerIsLowerCase(Trim(p));
    Lower(Trim(p))
  }

  /** `[t.strip().lower() for t in targets]`, without dropping anything. */
  function CleanAll(targets: seq<string>): (r: seq<string>)
    ensures |r| == |targets|
    ensures forall i :: 0 <= i < |r| ==> r[i] == CleanTarget(targets[i])
  {
    seq(|targets|, i requires 0 <= i < |targets| => CleanTarget(targets[i]))
  }

  /** The comprehension `[p.strip().lower() for p in pieces if p.strip()]`. */
  function KeepTargets(pieces: seq<string>): seq<string> {
    if pieces == [] then []
    else (if Trim(pieces[0]) != [] then [CleanTarget(pieces[0])] else []) + KeepTargets(pieces[1..])
  }

  /** The parsed list for one raw setting. */
  function ParseTargets(raw: string): seq<string> {
    KeepTargets(Split(raw, ','))
  }

  /** `TARGET_LOCATIONS`, given what the environment holds for it (`None` when unset). */
  function TargetLocations(env: Option<string>): seq<string> {
    ParseTargets(env.GetOr(DefaultTargets))
  }

  /** Every configured target is a usable name: not empty, no surrounding whitespace,
      lower case, and without the separator. */
  predicate WellFormedTarget(t: string) {
    t != [] && IsTrimmed(t) && IsLowerCase(t) && ',' !in t
  }

  // ---------------------------------------------------------------------------
  // Properties
  // ---------------------------------------------------------------------------

  /** Lower-casing and stripping adds no character, so no separator either. */
  lemma CleanKeepsOutSeparator(p: string)
    requires ',' !in p
    ensures ',' !in CleanTarget(p)
  {
    TrimIsSlice(p);
    var i := |p| - |TrimLeft(p)|;
    var t := Trim(p);
    forall k | 0 <= k < |t| ensures t[k] != ',' {
      assert t[k] == p[i + k];
    }
  }

  /** Parsing keeps the order of the pieces: it distributes over concatenation. */
  lemma {:induction false} KeepTargetsAppend(a: seq<string>, b: seq<string>)
    ensures KeepTargets(a + b) == KeepTargets(a) + KeepTargets(b)
  {
    if a == [] {
      assert a + b == b;
    } else {
      assert (a + b)[0] == a[0];
      assert (a + b)[1..] == a[1..] + b;
      KeepTargetsAppend(a[1..], b);
    }
  }

  /** Piece `p` of the setting contributes the name `t`. */
  predicate Yields(p: string, t: string) {
    Trim(p) != [] && t == CleanTarget(p)
  }

  /** A name is kept exactly when it is the cleaned form of a piece that is not blank. */
  lemma {:induction false} KeepTargetsMembers(pieces: seq<string>, t: string)
    ensures t in KeepTargets(pieces) <==> exists i :: 0 <= i < |pieces| && Yields(pieces[i], t)
  {
    if pieces != [] {
      var rest := pieces[1..];
      KeepTargetsMembers(rest, t);
      assert KeepTargets(pieces) == (if Yields(pieces[0], t) || Trim(pieces[0]) != [] then [CleanTarget(pieces[0])] else []) + KeepTargets(rest);
      if t in KeepTargets(pieces) {
        if t in KeepTargets(rest) {
          var i :| 0 <= i < |rest| && Yields(rest[i], t);
          assert pieces[i + 1] == rest[i];
        } else {
          assert Yields(pieces[0], t);
        }
      } else {
        forall i | 0 <= i < |pieces| ensures !Yields(pieces[i], t) {
          if i > 0 {
            assert pieces[i] == rest[i - 1];
          }
        }
      }
    }
  }

  /** Every kept name is well formed, when the pieces carry no separator. */
  lemma {:induction false} KeepTargetsWellFormed(pieces: seq<string>)
    requires forall i :: 0 <= i < |pieces| ==> ',' !in pieces[i]
    ensures forall t :: t in KeepTargets(pieces) ==> WellFormedTarget(t)
  {
    if pieces != [] {
      KeepTargetsWellFormed(pieces[1..]);
      CleanKeepsOutSeparator(pieces[0]);
    }
  }

  /** Every parsed target is non-empty, stripped, lower case and free of commas. */
  lemma ParsedTargetsWellFormed(raw: string)
    ensures forall t :: t in ParseTargets(raw) ==> WellFormedTarget(t)
  {
    KeepTargetsWellFormed(Split(raw, ','));
  }

  /** Parsing is faithful in both directions: the parsed list holds exactly the cleaned
      forms of the non-blank comma-separated pieces of `raw`. */
  lemma ParsedTargetsExact(raw: string, pieces: seq<string>, t: string)
    requires pieces == Split(raw, ',')
    ensures t in ParseTargets(raw) <==> exists i :: 0 <= i < |pieces| && Yields(pieces[i], t)
  {
    KeepTargetsMembers(pieces, t);
  }

  /** Order is kept: the targets of `a,b` are those of `a` followed by those of `b`. */
  lemma ParseTargetsConcat(a: string, b: string)
    ensures ParseTargets(a + [','] + b) == ParseTargets(a) + ParseTargets(b)
  {
    var pa := Split(a, ',');
    var pb := Split(b, ',');
    var joined := Join(pa + pb, ',');
    JoinAppend(pa, pb, ',');
    SplitJoin(pa + pb, ',');
    KeepTargetsAppend(pa, pb);
  }

  lemma {:induction false} JoinAppend(a: seq<string>, b: seq<string>, sep: char)
    requires |a| >= 1 && |b| >= 1
    ensures Join(a + b, sep) == Join(a, sep) + [sep] + Join(b, sep)
    decreases |a|
  {
    if |a| == 1 {
      assert (a + b)[0] == a[0] && (a + b)[1..] == b;
    } else {
      assert (a + b)[0] == a[0] && (a + b)[1..] == a[1..] + b;
      JoinAppend(a[1..], b, sep);
    }
  }

  /** Normalising a normalised name again changes nothing. */
  lemma CleanIdempotent(p: string)
    ensures CleanTarget(CleanTarget(p)) == CleanTarget(p)
  {
    var c := CleanTarget(p);
    TrimOfTrimmed(c);
    LowerOfLowerCase(c);
  }

  /** The matcher and the main loop clean the configured targets again; that is a no-op. */
  lemma {:induction false} RecleanParsed(raw: string)
    ensures CleanAll(ParseTargets(raw)) == ParseTargets(raw)
  {
    var ts := ParseTargets(raw);
    ParsedTargetsWellFormed(raw);
    forall i | 0 <= i < |ts| ensures CleanTarget(ts[i]) == ts[i] {
      assert ts[i] in ts;
      TrimOfTrimmed(ts[i]);
      LowerOfLowerCase(ts[i]);
    }
  }

  /** Names that are already well formed pass through parsing unchanged. */
  lemma {:induction false} KeepWellFormed(names: seq<string>)
    requires forall i :: 0 <= i < |names| ==> WellFormedTarget(names[i])
    ensures KeepTargets(names) == names
  {
    if names != [] {
      var n := names[0];
      assert WellFormedTarget(n);
      TrimOfTrimmed(n);
      LowerOfLowerCase(n);
      KeepWellFormed(names[1..]);
    }
  }

  /** Two well-formed names separated by one comma parse to exactly those two names. */
  lemma ParseTwo(a: string, b: string)
    requires WellFormedTarget(a) && WellFormedTarget(b)
    ensures ParseTargets(a + [','] + b) == [a, b]
  {
    assert a + [','] + b == Join([a, b], ',');
    SplitJoin([a, b], ',');
    KeepWellFormed([a, b]);
  }

  /** With nothing in the environment the monitor watches Jakarta and Singapore. */
  lemma DefaultTargetLocations()
    ensures TargetLocations(None) == ["jakarta", "singapore"]
  {
    var j := "jakarta";
    var s := "singapore";
    assert WellFormedTarget(j) && WellFormedTarget(s);
    assert DefaultTargets == j + [','] + s;
    ParseTwo(j, s);
  }
}
