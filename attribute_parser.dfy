/** The attribute schema cache and the positional, schema-driven validation
    of attribute values in one response line (`AttributeParser`). */
module Attributes {
  import opened Wrappers
  import opened Text
  import opened Ordering

  /** One attribute definition as the store returns it: a name and an
      inclusive range of allowed integer values. */
  datatype WordAttribute = WordAttribute(name: string, min: int, max: int)

  /** `ToDictionary` throws when two definitions carry the same name. */
  datatype LoadError = DuplicateName(name: string)

  /** The exceptions `ParseAttributesFromResponse` throws. */
  datatype ParseError =
    | NotLoaded                                       // InvalidOperationException: schema not loaded
    | IndicesOutOfRange                               // InvalidOperationException: index guard
    | WrongAttributeCount(expected: int, got: int)    // InvalidDataException: count rule
    | InvalidFormat(attribute: string, text: string)  // FormatException: not an integer
    | ValueOutOfRange(attribute: string, value: int, min: int, max: int)  // InvalidDataException
    | IndexOutsideArray(index: int)                   // IndexOutOfRangeException: read past the end

  /** The errors raised for one attribute position inside the loop. */
  predicate IsFieldError(e: ParseError) {
    e.InvalidFormat? || e.ValueOutOfRange? || e.IndexOutsideArray?
  }

  function NamesOf(defs: seq<WordAttribute>): (names: seq<string>)
    ensures |names| == |defs|
    ensures forall i :: 0 <= i < |defs| ==> names[i] == defs[i].name
  {
    if defs == [] then [] else NamesOf(defs[..|defs| - 1]) + [defs[|defs| - 1].name]
  }

  // ------------------------------------------------------ loading

  /** `defs.ToDictionary(x => x.Name, x => x)`: a map from each name to its
      definition, or the first name that occurs a second time. */
  function ToDictionary(defs: seq<WordAttribute>): (r: Result<map<string, WordAttribute>, LoadError>)
    ensures r.Ok? ==> forall i :: 0 <= i < |defs| ==> defs[i].name in r.value && r.value[defs[i].name] == defs[i]
    ensures r.Ok? ==> forall k :: k in r.value ==> r.value[k].name == k && r.value[k] in defs
    decreases |defs|
  {
    if defs == [] then Ok(map[])
    else
      var init := defs[..|defs| - 1];
      var d := defs[|defs| - 1];
      match ToDictionary(init)
      case Err(e) => Err(e)
      case Ok(m) =>
        if d.name in m then Err(DuplicateName(d.name))
        else
          assert defs == init + [d];
          AddDefinition(init, d, m, m[d.name := d]);
          Ok(m[d.name := d])
  }

  /** Adding a definition under a new name keeps the map describing the
      definitions, now one more. */
  lemma AddDefinition(init: seq<WordAttribute>, d: WordAttribute, m: map<string, WordAttribute>,
                       m': map<string, WordAttribute>)
    requires forall i :: 0 <= i < |init| ==> init[i].name in m && m[init[i].name] == init[i]
    requires forall k :: k in m ==> m[k].name == k && m[k] in init
    requires d.name !in m && m' == m[d.name := d]
    ensures var defs := init + [d];
            && (forall i :: 0 <= i < |defs| ==> defs[i].name in m' && m'[defs[i].name] == defs[i])
            && (forall k :: k in m' ==> m'[k].name == k && m'[k] in defs)
  {
    var defs := init + [d];
    assert forall i :: 0 <= i < |init| ==> defs[i] == init[i];
    assert forall k :: k in m ==> m[k] in defs;
  }

  /** Every key of the built map is the name of one of the definitions. */
  lemma KeyIsName(defs: seq<WordAttribute>, k: string)
    requires ToDictionary(defs).Ok? && k in ToDictionary(defs).value
    ensures k in NamesOf(defs)
  {
    var m := ToDictionary(defs).value;
    var i :| 0 <= i < |defs| && defs[i] == m[k];
    assert NamesOf(defs)[i] == k;
  }

  /** Building the map succeeds exactly when no name occurs twice. */
  lemma {:induction false} ToDictionaryOkIffDistinct(defs: seq<WordAttribute>)
    ensures ToDictionary(defs).Ok? <==> Distinct(NamesOf(defs))
    decreases |defs|
  {
    if defs != [] {
      var init := defs[..|defs| - 1];
      var d := defs[|defs| - 1];
      ToDictionaryOkIffDistinct(init);
      DistinctSnoc(NamesOf(init), d.name);
    }
  }

  /** A list with one more element at the end is free of repeats exactly
      when the list was and did not hold the element. */
  lemma DistinctSnoc<T>(s: seq<T>, x: T)
    ensures Distinct(s + [x]) <==> Distinct(s) && x !in s
  {
    var t := s + [x];
    assert forall i :: 0 <= i < |s| ==> t[i] == s[i];
    if x in s {
      var i :| 0 <= i < |s| && s[i] == x;
      assert t[i] == t[|s|];
    }
  }

  /** A failed build names the first definition, in list order, whose name
      already occurred before it. */
  lemma {:induction false} ToDictionaryFirstDuplicate(defs: seq<WordAttribute>)
    requires ToDictionary(defs).Err?
    ensures exists j :: 0 < j < |defs| && Distinct(NamesOf(defs[..j]))
                        && defs[j].name in NamesOf(defs[..j]) && ToDictionary(defs).error == DuplicateName(defs[j].name)
    decreases |defs|
  {
    var n := |defs| - 1;
    var init := defs[..n];
    var d := defs[n];
    if ToDictionary(init).Err? {
      ToDictionaryFirstDuplicate(init);
      var j :| 0 < j < |init| && Distinct(NamesOf(init[..j]))
                && init[j].name in NamesOf(init[..j]) && ToDictionary(init).error == DuplicateName(init[j].name);
      DuplicateInPrefix(defs, j);
    } else {
      ToDictionaryOkIffDistinct(init);
      assert defs[..n] == init;
      KeyIsName(init, d.name);
      assert Distinct(NamesOf(defs[..n])) && defs[n].name in NamesOf(defs[..n]);
    }
  }

  lemma DuplicateInPrefix(defs: seq<WordAttribute>, j: nat)
    requires 0 < j < |defs| - 1
    requires Distinct(NamesOf(defs[..|defs| - 1][..j])) && defs[..|defs| - 1][j].name in NamesOf(defs[..|defs| - 1][..j])
    ensures Distinct(NamesOf(defs[..j])) && defs[j].name in NamesOf(defs[..j])
  {
    assert defs[..|defs| - 1][..j] == defs[..j];
  }

  /** A consistent schema snapshot: the names are in ascending order without
      repeats, they are exactly the keys of the map, and each key maps to
      the definition of that name. */
  ghost predicate SchemaConsistent(names: seq<string>, m: map<string, WordAttribute>) {
    && Sorted(names) && Distinct(names)
    && (forall k :: k in m <==> k in names)
    && (forall k :: k in m ==> m[k].name == k)
  }

  /** The snapshot built from a list of definitions with distinct names is
      consistent, and it is the only consistent order of those names. */
  lemma LoadedSchemaConsistent(defs: seq<WordAttribute>, names: seq<string>)
    requires ToDictionary(defs).Ok?
    requires Sorted(names) && multiset(names) == multiset(NamesOf(defs))
    ensures SchemaConsistent(SortNames(NamesOf(defs)), ToDictionary(defs).value)
    ensures names == SortNames(NamesOf(defs))
  {
    var m := ToDictionary(defs).value;
    var sorted := SortNames(NamesOf(defs));
    ToDictionaryOkIffDistinct(defs);
    KeysAreNames(defs, sorted);
    SortedUnique(names, sorted);
  }

  /** The keys of the built map are the names of the definitions, listed in
      any order. */
  lemma KeysAreNames(defs: seq<WordAttribute>, names: seq<string>)
    requires ToDictionary(defs).Ok?
    requires multiset(names) == multiset(NamesOf(defs))
    ensures forall k :: k in ToDictionary(defs).value <==> k in names
  {
    var m := ToDictionary(defs).value;
    forall k ensures k in m <==> k in names {
      assert k in names <==> k in multiset(names);
      assert k in NamesOf(defs) <==> k in multiset(NamesOf(defs));
      if k in m {
        var i :| 0 <= i < |defs| && defs[i] == m[k];
        assert NamesOf(defs)[i] == k;
      }
      if k in NamesOf(defs) {
        var i :| 0 <= i < |defs| && NamesOf(defs)[i] == k;
      }
    }
  }

  // ------------------------------------------------------ parsing

  /** Every name of the list has a definition in the map. */
  ghost predicate Covers(names: seq<string>, m: map<string, WordAttribute>) {
    forall i :: 0 <= i < |names| ==> names[i] in m
  }

  lemma ConsistentCovers(names: seq<string>, m: map<string, WordAttribute>)
    requires SchemaConsistent(names, m)
    ensures Covers(names, m) && Distinct(names)
  {
  }

  /** The index guard of `ParseAttributesFromResponse`, as written. */
  predicate IndexGuardFails(len: int, first: int, last: int) {
    first < 0 || first >= len || last < first || last >= len || first + last > len
  }

  /** The check of attribute position `i`: the field at `first + i` must be
      present, must parse as an integer and must lie within the inclusive
      range of the `i`-th attribute name. */
  function CheckField(m: map<string, WordAttribute>, names: seq<string>, items: seq<string>, first: nat, i: nat)
    : (r: Result<int, ParseError>)
    requires Covers(names, m) && i < |names|
    ensures r.Err? ==> IsFieldError(r.error)
    ensures r.Err? && r.error.IndexOutsideArray? <==> first + i >= |items|
    ensures r.Ok? ==> first + i < |items| && ParseInt32(items[first + i]) == Some(r.value)
    ensures r.Ok? ==> m[names[i]].min <= r.value <= m[names[i]].max
    ensures first + i < |items| ==> (r.Err? && r.error.InvalidFormat? <==> ParseInt32(items[first + i]).None?)
    ensures r.Err? && r.error.InvalidFormat? ==> r.error == InvalidFormat(names[i], items[first + i])
    ensures first + i < |items| && ParseInt32(items[first + i]).Some? ==>
              var v := ParseInt32(items[first + i]).value;
              && (r.Ok? <==> m[names[i]].min <= v <= m[names[i]].max)
              && (r.Err? ==> r.error == ValueOutOfRange(names[i], v, m[names[i]].min, m[names[i]].max))
  {
    var index := first + i;
    if index >= |items| then Err(IndexOutsideArray(index))
    else
      match ParseInt32(items[index])
      case None => Err(InvalidFormat(names[i], items[index]))
      case Some(v) =>
        var a := m[names[i]];
        if v < a.min || v > a.max then Err(ValueOutOfRange(names[i], v, a.min, a.max)) else Ok(v)
  }

  /** The outcome of the check of every attribute position, in sorted
      name order. */
  function Checks(m: map<string, WordAttribute>, names: seq<string>, items: seq<string>, first: nat)
    : seq<Result<int, ParseError>>
    requires Covers(names, m)
  {
    seq(|names|, i requires 0 <= i < |names| => CheckField(m, names, items, first, i))
  }

  /** The loop after `k` iterations, given the outcome of each position's
      check: the map filled for the first `k` names, or the error of the
      first failing position. */
  function Fill(names: seq<string>, checks: seq<Result<int, ParseError>>, k: nat): Result<map<string, int>, ParseError>
    requires |checks| == |names| && k <= |names|
  {
    if k == 0 then Ok(map[])
    else
      match Fill(names, checks, k - 1)
      case Err(e) => Err(e)
      case Ok(acc) =>
        match checks[k - 1]
        case Err(e) => Err(e)
        case Ok(v) => Ok(acc[names[k - 1] := v])
  }

  /** `ParseAttributesFromResponse` as written, given the cached state. */
  function ParseResponse(attributes: Option<map<string, WordAttribute>>, names: seq<string>,
                         items: seq<string>, first: int, last: int): Result<map<string, int>, ParseError>
    requires attributes.Some? ==> SchemaConsistent(names, attributes.value)
  {
    if attributes.None? then Err(NotLoaded)
    else if IndexGuardFails(|items|, first, last) then Err(IndicesOutOfRange)
    else if first + last != |names| then Err(WrongAttributeCount(|names|, first + last))
    else Fill(names, Checks(attributes.value, names, items, first), |names|)
  }

  /** The loop succeeds iff every position passes its check, and then holds
      exactly one entry per name, the value checked at that name's position. */
  lemma {:induction false} FillOk(names: seq<string>, checks: seq<Result<int, ParseError>>, k: nat)
    requires Distinct(names) && |checks| == |names| && k <= |names|
    ensures Fill(names, checks, k).Ok? <==> forall j :: 0 <= j < k ==> checks[j].Ok?
    ensures Fill(names, checks, k).Ok? ==>
              && (forall key :: key in Fill(names, checks, k).value <==> key in names[..k])
              && (forall j :: 0 <= j < k ==> Fill(names, checks, k).value[names[j]] == checks[j].value)
  {
    if k > 0 {
      FillOk(names, checks, k - 1);
      assert names[..k] == names[..k - 1] + [names[k - 1]];
      if Fill(names, checks, k).Ok? {
        var vals := Fill(names, checks, k).value;
        forall j | 0 <= j < k
          ensures vals[names[j]] == checks[j].value
        {
          if j < k - 1 {
            assert names[j] != names[k - 1];
          }
        }
      }
    }
  }

  /** A failing loop fails with the error of the first position whose check
      fails. */
  lemma {:induction false} FillErr(names: seq<string>, checks: seq<Result<int, ParseError>>, k: nat)
    requires |checks| == |names| && k <= |names|
    requires Fill(names, checks, k).Err?
    ensures exists j :: 0 <= j < k && checks[j] == Err(Fill(names, checks, k).error)
                        && forall i :: 0 <= i < j ==> checks[i].Ok?
  {
    if Fill(names, checks, k - 1).Err? {
      FillErr(names, checks, k - 1);
    } else {
      FillAllOk(names, checks, k - 1);
    }
  }

  /** A loop that has not failed has met only passing checks. */
  lemma {:induction false} FillAllOk(names: seq<string>, checks: seq<Result<int, ParseError>>, k: nat)
    requires |checks| == |names| && k <= |names|
    requires Fill(names, checks, k).Ok?
    ensures forall j :: 0 <= j < k ==> checks[j].Ok?
  {
    if k > 0 {
      FillAllOk(names, checks, k - 1);
    }
  }

  /** Once the loop has failed, later iterations keep the same error. */
  lemma {:induction false} FillErrSticks(names: seq<string>, checks: seq<Result<int, ParseError>>, k: nat, k': nat)
    requires |checks| == |names| && k <= k' <= |names|
    requires Fill(names, checks, k).Err?
    ensures Fill(names, checks, k') == Fill(names, checks, k)
    decreases k' - k
  {
    if k' > k {
      FillErrSticks(names, checks, k, k' - 1);
    }
  }

  /** Positions that all pass leave the loop without an error. */
  lemma {:induction false} FillPrefixOk(names: seq<string>, checks: seq<Result<int, ParseError>>, k: nat)
    requires |checks| == |names| && k <= |names|
    requires forall j :: 0 <= j < k ==> checks[j].Ok?
    ensures Fill(names, checks, k).Ok?
  {
    if k > 0 {
      FillPrefixOk(names, checks, k - 1);
    }
  }

  /** The first failing position decides the outcome of the loop. */
  lemma FillFirstError(names: seq<string>, checks: seq<Result<int, ParseError>>, k: nat)
    requires |checks| == |names| && k < |names|
    requires forall j :: 0 <= j < k ==> checks[j].Ok?
    requires checks[k].Err?
    ensures Fill(names, checks, |names|) == Err(checks[k].error)
  {
    FillPrefixOk(names, checks, k);
    FillStops(names, checks, k, Fill(names, checks, k).value);
  }

  /** A loop that passes position `k` adds that position's value under its name. */
  lemma FillAdvance(names: seq<string>, checks: seq<Result<int, ParseError>>, k: nat, acc: map<string, int>)
    requires |checks| == |names| && k < |names|
    requires Fill(names, checks, k) == Ok(acc) && checks[k].Ok?
    ensures Fill(names, checks, k + 1) == Ok(acc[names[k] := checks[k].value])
  {
  }

  /** A loop that reaches a failing position ends with that position's error. */
  lemma FillStops(names: seq<string>, checks: seq<Result<int, ParseError>>, k: nat, acc: map<string, int>)
    requires |checks| == |names| && k < |names|
    requires Fill(names, checks, k) == Ok(acc) && checks[k].Err?
    ensures Fill(names, checks, |names|) == Err(checks[k].error)
  {
    FillErrSticks(names, checks, k + 1, |names|);
  }

  /** "Indices are out of range" is raised exactly when the schema is loaded
      and one of the five guard conditions holds. */
  lemma ParseIndicesError(attributes: Option<map<string, WordAttribute>>, names: seq<string>, items: seq<string>, first: int, last: int)
    requires attributes.Some? ==> SchemaConsistent(names, attributes.value)
    ensures ParseResponse(attributes, names, items, first, last) == Err(IndicesOutOfRange)
            <==> attributes.Some? && IndexGuardFails(|items|, first, last)
  {
    if attributes.Some? && !IndexGuardFails(|items|, first, last) && first + last == |names|
       && ParseResponse(attributes, names, items, first, last).Err? {
      FillErr(names, Checks(attributes.value, names, items, first), |names|);
    }
  }

  /** The count error is raised exactly when the schema is loaded, the guard
      passes and `firstIndex + lastIndex` differs from the number of
      attributes; it reports both numbers. */
  lemma ParseCountError(attributes: Option<map<string, WordAttribute>>, names: seq<string>, items: seq<string>, first: int, last: int)
    requires attributes.Some? ==> SchemaConsistent(names, attributes.value)
    ensures ParseResponse(attributes, names, items, first, last) == Err(WrongAttributeCount(|names|, first + last))
            <==> attributes.Some? && !IndexGuardFails(|items|, first, last) && first + last != |names|
    ensures (ParseResponse(attributes, names, items, first, last).Err? && ParseResponse(attributes, names, items, first, last).error.WrongAttributeCount?)
            ==> attributes.Some? && !IndexGuardFails(|items|, first, last) && first + last != |names|
  {
    if attributes.Some? && !IndexGuardFails(|items|, first, last) && first + last == |names|
       && ParseResponse(attributes, names, items, first, last).Err? {
      FillErr(names, Checks(attributes.value, names, items, first), |names|);
    }
  }

  /** Success means: the schema is loaded, both index rules pass and every
      position passes its check; the result then has exactly one key per
      attribute name, holding the integer read at that name's position,
      which lies within the attribute's inclusive range. */
  lemma ParseSuccess(attributes: Option<map<string, WordAttribute>>, names: seq<string>, items: seq<string>, first: int, last: int)
    requires attributes.Some? ==> SchemaConsistent(names, attributes.value)
    ensures ParseResponse(attributes, names, items, first, last).Ok? <==>
              && attributes.Some? && !IndexGuardFails(|items|, first, last) && first + last == |names|
              && forall i :: 0 <= i < |names| ==> CheckField(attributes.value, names, items, first, i).Ok?
    ensures ParseResponse(attributes, names, items, first, last).Ok? ==>
              var vals := ParseResponse(attributes, names, items, first, last).value;
              && (forall key :: key in vals <==> key in names)
              && forall i :: 0 <= i < |names| ==>
                   && first + i < |items|
                   && ParseInt32(items[first + i]) == Some(vals[names[i]])
                   && attributes.value[names[i]].min <= vals[names[i]] <= attributes.value[names[i]].max
  {
    if attributes.Some? && !IndexGuardFails(|items|, first, last) && first + last == |names| {
      var checks := Checks(attributes.value, names, items, first);
      assert forall i :: 0 <= i < |names| ==> checks[i] == CheckField(attributes.value, names, items, first, i);
      FillOk(names, checks, |names|);
      assert names[..|names|] == names;
    }
  }

  /** A loaded schema, index rules that pass and a field for every name that
      parses to a value within its range: the call returns exactly those
      values, one per name. */
  lemma ParseAcceptsValid(m: map<string, WordAttribute>, names: seq<string>, items: seq<string>, first: int, last: int)
    requires SchemaConsistent(names, m)
    requires !IndexGuardFails(|items|, first, last) && first + last == |names|
    requires forall i :: 0 <= i < |names| ==> ValidField(m, names, items, first, i)
    ensures ParseResponse(Some(m), names, items, first, last).Ok?
    ensures var vals := ParseResponse(Some(m), names, items, first, last).value;
            && (forall key :: key in vals <==> key in names)
            && forall i :: 0 <= i < |names| ==> ParseInt32(items[first + i]) == Some(vals[names[i]])
  {
    ConsistentCovers(names, m);
    forall i | 0 <= i < |names| ensures CheckField(m, names, items, first, i).Ok? {
      CheckFieldValid(m, names, items, first, i);
    }
    ParseSuccess(Some(m), names, items, first, last);
  }

  /** The field for attribute position `i` is present, is an integer and
      lies within the range of the `i`-th name. */
  ghost predicate ValidField(m: map<string, WordAttribute>, names: seq<string>, items: seq<string>, first: int, i: nat)
    requires Covers(names, m) && i < |names|
  {
    && 0 <= first && first + i < |items| && ParseInt32(items[first + i]).Some?
    && m[names[i]].min <= ParseInt32(items[first + i]).value <= m[names[i]].max
  }

  /** A present field that parses to a value within its range passes. */
  lemma CheckFieldValid(m: map<string, WordAttribute>, names: seq<string>, items: seq<string>, first: nat, i: nat)
    requires Covers(names, m) && i < |names| && ValidField(m, names, items, first, i)
    ensures CheckField(m, names, items, first, i) == Ok(ParseInt32(items[first + i]).value)
  {
  }

  /** Past the two index rules, the first position (in sorted name order)
      whose field is missing, not an integer or out of range decides the
      error. */
  lemma ParseFirstFailure(attributes: Option<map<string, WordAttribute>>, names: seq<string>, items: seq<string>, first: int, last: int)
    requires attributes.Some? ==> SchemaConsistent(names, attributes.value)
    requires attributes.Some? && !IndexGuardFails(|items|, first, last) && first + last == |names|
    requires ParseResponse(attributes, names, items, first, last).Err?
    ensures IsFieldError(ParseResponse(attributes, names, items, first, last).error)
    ensures exists j :: 0 <= j < |names|
              && CheckField(attributes.value, names, items, first, j) == Err(ParseResponse(attributes, names, items, first, last).error)
              && forall i :: 0 <= i < j ==> CheckField(attributes.value, names, items, first, i).Ok?
  {
    var checks := Checks(attributes.value, names, items, first);
    assert forall i :: 0 <= i < |names| ==> checks[i] == CheckField(attributes.value, names, items, first, i);
    FillErr(names, checks, |names|);
  }

  /** On success the loop has read up to index `2*firstIndex + lastIndex - 1`;
      the index guard only ensures `firstIndex + lastIndex <= length`, so
      with `firstIndex >= 1` the guard admits calls whose reads overrun. */
  lemma ParseSuccessNeedsRoom(attributes: Option<map<string, WordAttribute>>, names: seq<string>, items: seq<string>, first: int, last: int)
    requires attributes.Some? ==> SchemaConsistent(names, attributes.value)
    requires ParseResponse(attributes, names, items, first, last).Ok?
    ensures 2 * first + last <= |items|
  {
    ParseSuccess(attributes, names, items, first, last);
    if first + last > 0 {
      assert CheckField(attributes.value, names, items, first, first + last - 1).Ok?;
    }
  }

  /** A call the guard and the count rule accept but whose attributes do not
      fit between `firstIndex` and the end of the array (for example three
      items, `firstIndex = 1`, `lastIndex = 2` and three names): when every
      field that exists passes its check, the loop goes on to read the index
      one past the end. */
  lemma GuardAdmitsOverrun(m: map<string, WordAttribute>, names: seq<string>, items: seq<string>, first: int, last: int)
    requires SchemaConsistent(names, m)
    requires !IndexGuardFails(|items|, first, last) && first + last == |names|
    requires |items| < first + |names|
    requires forall i :: 0 <= i < |items| - first ==> CheckField(m, names, items, first, i).Ok?
    ensures ParseResponse(Some(m), names, items, first, last) == Err(IndexOutsideArray(|items|))
  {
    ConsistentCovers(names, m);
    var k := |items| - first;
    var checks := Checks(m, names, items, first);
    assert forall j :: 0 <= j < k ==> checks[j].Ok?;
    CheckFieldPastEnd(m, names, items, first, k);
    FillFirstError(names, checks, k);
    assert ParseResponse(Some(m), names, items, first, last) == Fill(names, checks, |names|);
  }

  lemma CheckFieldPastEnd(m: map<string, WordAttribute>, names: seq<string>, items: seq<string>, first: nat, i: nat)
    requires Covers(names, m) && i < |names| && first + i >= |items|
    ensures CheckField(m, names, items, first, i) == Err(IndexOutsideArray(first + i))
  {
  }

  /** The evidently intended rule: the inclusive range `[firstIndex,
      lastIndex]` must hold exactly one field per attribute. */
  function ParseRange(m: map<string, WordAttribute>, names: seq<string>, items: seq<string>, first: int, last: int)
    : Result<map<string, int>, ParseError>
    requires SchemaConsistent(names, m)
  {
    if first < 0 || first >= |items| || last < first || last >= |items| then Err(IndicesOutOfRange)
    else if last - first + 1 != |names| then Err(WrongAttributeCount(|names|, last - first + 1))
    else Fill(names, Checks(m, names, items, first), |names|)
  }

  /** With the range rule no read leaves the array, and on success the
      result takes attribute `i` from field `firstIndex + i`, which lies
      inside `[firstIndex, lastIndex]`, and keeps it within its range. */
  lemma ParseRangeInBounds(m: map<string, WordAttribute>, names: seq<string>, items: seq<string>, first: int, last: int)
    requires SchemaConsistent(names, m)
    ensures var r := ParseRange(m, names, items, first, last);
            r.Err? ==> !r.error.IndexOutsideArray?
    ensures var r := ParseRange(m, names, items, first, last);
            r.Ok? ==> && (forall key :: key in r.value <==> key in names)
                      && forall i :: 0 <= i < |names| ==>
                           && first <= first + i <= last
                           && ParseInt32(items[first + i]) == Some(r.value[names[i]])
                           && m[names[i]].min <= r.value[names[i]] <= m[names[i]].max
  {
    if !(first < 0 || first >= |items| || last < first || last >= |items|) && last - first + 1 == |names| {
      var r := Fill(names, Checks(m, names, items, first), |names|);
      FillOk(names, Checks(m, names, items, first), |names|);
      assert names[..|names|] == names;
      if r.Err? {
        FillErr(names, Checks(m, names, items, first), |names|);
      }
    }
  }

  /** One iteration of the loop of `ParseAttributesFromResponse`: read the
      field at `first + i`, parse it, and check it against the range of the
      `i`-th attribute. */
  method ReadAttribute(m: map<string, WordAttribute>, names: seq<string>, items: seq<string>, first: nat, i: nat)
    returns (outcome: Result<int, ParseError>)
    requires Covers(names, m) && i < |names|
    ensures outcome == CheckField(m, names, items, first, i)
  {
    var attributeName := names[i];
    if first + i >= |items| {
      return Err(IndexOutsideArray(first + i));
    }
    var attributeValue := items[first + i];
    var value := ParseInt32(attributeValue);
    if value.Some? {
      var attribute := m[attributeName];
      if value.value < attribute.min || value.value > attribute.max {
        return Err(ValueOutOfRange(attributeName, value.value, attribute.min, attribute.max));
      }
      return Ok(value.value);
    } else {
      return Err(InvalidFormat(attributeName, attributeValue));
    }
  }

  /** The loop of `ParseAttributesFromResponse`: one iteration per attribute
      name, in sorted order, filling a fresh map and stopping at the first
      failure. */
  method ReadAttributes(m: map<string, WordAttribute>, names: seq<string>, items: seq<string>, first: nat)
    returns (r: Result<map<string, int>, ParseError>)
    requires Covers(names, m)
    ensures r == Fill(names, Checks(m, names, items, first), |names|)
  {
    ghost var checks := Checks(m, names, items, first);
    var result: map<string, int> := map[];
    for i := 0 to |names|
      invariant Fill(names, checks, i) == Ok(result)
    {
      var outcome := ReadAttribute(m, names, items, first, i);
      if outcome.Err? {
        FillStops(names, checks, i, result);
        return Err(outcome.error);
      }
      FillAdvance(names, checks, i, result);
      result := result[names[i] := outcome.value];
    }
    return Ok(result);
  }

  // ------------------------------------------------------ the parser object

  /** The parser with its schema cache: `attributes` is absent until the
      first successful load, `attributeNames` then lists its keys in
      ascending order. */
  class AttributeParser {
    var attributeNames: seq<string>
    var attributes: Option<map<string, WordAttribute>>
    /** How many times the definitions were fetched from the store. */
    ghost var fetches: nat

    ghost predicate Valid()
      reads this
    {
      match attributes
      case None => attributeNames == []
      case Some(m) => SchemaConsistent(attributeNames, m)
    }

    constructor ()
      ensures Valid() && attributes == None && attributeNames == [] && fetches == 0
    {
      attributeNames := [];
      attributes := None;
      fetches := 0;
    }

    /** `LoadAttributesAsync`, with `fetched` the definitions the store
        would return. Fetches and fills both fields only while nothing is
        loaded; a duplicate name throws before either field is assigned. */
    method LoadAttributes(fetched: seq<WordAttribute>) returns (r: Outcome<LoadError>)
      requires Valid()
      modifies this
      ensures Valid()
      ensures old(attributes).Some? ==> unchanged(this) && r == Pass
      ensures old(attributes).None? ==>
                && fetches == old(fetches) + 1
                && match ToDictionary(fetched)
                   case Ok(m) => r == Pass && attributes == Some(m) && attributeNames == SortNames(NamesOf(fetched))
                   case Err(e) => r == Fail(e) && attributes == None && attributeNames == []
    {
      if attributes.None? {
        fetches := fetches + 1;
        var dictionary := ToDictionary(fetched);
        match dictionary {
          case Err(e) =>
            return Fail(e);
          case Ok(m) =>
            attributes := Some(m);
            attributeNames := SortNames(NamesOf(fetched));
            LoadedSchemaConsistent(fetched, attributeNames);
        }
      }
      return Pass;
    }

    /** `ParseAttributesFromResponse`: reads the cached schema, never
        changes it, and fills a fresh map in one pass over the names. */
    method ParseAttributesFromResponse(responseItems: seq<string>, firstIndex: int, lastIndex: int)
      returns (r: Result<map<string, int>, ParseError>)
      requires Valid()
      ensures r == ParseResponse(attributes, attributeNames, responseItems, firstIndex, lastIndex)
    {
      if attributes.None? {
        return Err(NotLoaded);
      }
      var m := attributes.value;
      if firstIndex < 0 || firstIndex >= |responseItems| || lastIndex < firstIndex
         || lastIndex >= |responseItems| || firstIndex + lastIndex > |responseItems| {
        return Err(IndicesOutOfRange);
      }
      if firstIndex + lastIndex != |attributeNames| {
        return Err(WrongAttributeCount(|attributeNames|, firstIndex + lastIndex));
      }
      ConsistentCovers(attributeNames, m);
      r := ReadAttributes(m, attributeNames, responseItems, firstIndex);
    }
  }
}
