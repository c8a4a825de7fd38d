/**
  The display helpers of src/frontend/src/utils/utils.ts: `classNames`,
  `truncateLongId`, `extractIdFromLongId`, `truncateDisplayName`,
  `getFieldTitle` and `getChatInputField`.
 */
module Display {
  import opened Wrappers
  import opened Text
  import opened Types
  import opened CaseConversion

  // ---------------------------------------------------------------------
  // classNames
  // ---------------------------------------------------------------------

  /** `classes.filter(Boolean)`: the non-empty class names, in order. */
  function NonEmptyClasses(classes: seq<string>): (r: seq<string>)
    ensures |r| <= |classes|
    ensures forall k :: 0 <= k < |r| ==> r[k] != []
    ensures forall c :: c in r <==> c in classes && c != []
  {
    if classes == [] then []
    else (if classes[0] != [] then [classes[0]] else []) + NonEmptyClasses(classes[1..])
  }

  /** `filter` keeps the order and the repetitions: it distributes over concatenation. */
  lemma {:induction false} NonEmptyClassesAppend(a: seq<string>, b: seq<string>)
    ensures NonEmptyClasses(a + b) == NonEmptyClasses(a) + NonEmptyClasses(b)
  {
    if a != [] {
      assert (a + b)[0] == a[0] && (a + b)[1..] == a[1..] + b;
      NonEmptyClassesAppend(a[1..], b);
    } else {
      assert a + b == b;
    }
  }

  lemma JoinKeptClasses(classes: seq<string>)
    ensures Join(NonEmptyClasses(classes), " ") == [] <==>
      forall k :: 0 <= k < |classes| ==> classes[k] == []
    ensures NonEmptyClasses(classes) != [] ==>
      Split(Join(NonEmptyClasses(classes), " "), ' ') == SplitAll(NonEmptyClasses(classes), ' ')
    ensures NonEmptyClasses(classes) != [] && (forall k :: 0 <= k < |classes| ==> ' ' !in classes[k]) ==>
      Split(Join(NonEmptyClasses(classes), " "), ' ') == NonEmptyClasses(classes)
  {
    var kept := NonEmptyClasses(classes);
    if kept != [] {
      assert kept[0] in classes;
      assert |Join(kept, " ")| >= |kept[0]|;
      SplitOfJoin(kept, ' ');
      if forall k :: 0 <= k < |classes| ==> ' ' !in classes[k] {
        forall k | 0 <= k < |kept| ensures ' ' !in kept[k] {
          assert kept[k] in classes;
        }
        SplitJoin(kept, ' ');
      }
    } else {
      assert forall k :: 0 <= k < |classes| ==> classes[k] in classes;
    }
  }

  /**
    `classNames`: the non-empty class names joined by single spaces. The
    result is empty exactly when every name is; splitting it at spaces gives
    the words of the kept names, in order, and the names themselves when no
    name holds a space.
   */
  function ClassNames(classes: seq<string>): (r: string)
    ensures r == [] <==> forall k :: 0 <= k < |classes| ==> classes[k] == []
    ensures r != [] ==> Split(r, ' ') == SplitAll(NonEmptyClasses(classes), ' ')
    ensures r != [] && (forall k :: 0 <= k < |classes| ==> ' ' !in classes[k]) ==>
      Split(r, ' ') == NonEmptyClasses(classes)
  {
    JoinKeptClasses(classes);
    Join(NonEmptyClasses(classes), " ")
  }

  // ---------------------------------------------------------------------
  // truncateDisplayName, truncateLongId, extractIdFromLongId
  // ---------------------------------------------------------------------

  /** The longest name or component name shown in full. */
  const MaxShownLength := 15

  /**
    `truncateDisplayName`: a name of at most 15 characters is returned as it
    is; a longer one is cut to its first 15 characters followed by "...".
   */
  function TruncateDisplayName(name: string): (r: string)
    ensures |r| <= MaxShownLength + 3
    ensures |name| <= MaxShownLength ==> r == name
    ensures |name| > MaxShownLength ==>
      |r| == MaxShownLength + 3 && r[..MaxShownLength] == name[..MaxShownLength] && r[MaxShownLength..] == "..."
  {
    if |name| > MaxShownLength then name[..MaxShownLength] + "..." else name
  }

  /** Truncating an already truncated name changes nothing. */
  lemma TruncateDisplayNameIdempotent(name: string)
    ensures TruncateDisplayName(TruncateDisplayName(name)) == TruncateDisplayName(name)
  {
    var r := TruncateDisplayName(name);
    if |name| > MaxShownLength {
      assert r[..MaxShownLength] + "..." == r;
    }
  }

  /**
    `truncateLongId`: an id reads `componentName-newId`; when the component name
    (the text before the first `-`) is longer than 15 characters it is cut to
    15 followed by "...", and `-newId` is appended, where newId is the second
    `-` piece (the text `undefined` when the id holds no `-`).
   */
  function TruncateLongId(id: string): (r: string)
    ensures |Split(id, '-')[0]| <= MaxShownLength ==> r == id
    ensures |Split(r, '-')[0]| <= MaxShownLength + 3
  {
    var parts := Split(id, '-');
    var componentName := parts[0];
    var newId := if |parts| > 1 then parts[1] else "undefined";
    if |componentName| > MaxShownLength then
      var shortName := componentName[..MaxShownLength] + "...";
      assert '-' !in shortName by {
        assert forall i :: 0 <= i < MaxShownLength ==> shortName[i] == componentName[i];
      }
      SplitConcat(shortName, newId, '-');
      assert shortName + "-" + newId == shortName + ['-'] + newId;
      SplitNoSeparator(shortName, '-');
      shortName + "-" + newId
    else
      id
  }

  /**
    `extractIdFromLongId`: the second `-` piece of the id, `undefined` (None)
    when the id holds no `-`.
   */
  function ExtractIdFromLongId(id: string): (r: Option<string>)
    ensures r.None? <==> '-' !in id
    ensures r.Some? ==> '-' !in r.value
  {
    SplitSinglePiece(id, '-');
    var parts := Split(id, '-');
    if |parts| > 1 then Some(parts[1]) else None
  }

  /** The first two `-` pieces of `componentName-newId` followed by nothing or by more `-` pieces. */
  lemma WellFormedPieces(componentName: string, newId: string, tail: string)
    requires '-' !in componentName && '-' !in newId && (tail == [] || tail[0] == '-')
    ensures var parts := Split(componentName + "-" + newId + tail, '-');
      |parts| > 1 && parts[0] == componentName && parts[1] == newId
  {
    var rest := newId + tail;
    assert Split(rest, '-')[0] == newId by {
      SplitNoSeparator(newId, '-');
      if tail == [] {
        assert rest == newId;
      } else {
        assert rest == newId + ['-'] + tail[1..];
        SplitConcat(newId, tail[1..], '-');
      }
    }
    assert Split(componentName + "-" + newId + tail, '-') == [componentName] + Split(rest, '-') by {
      assert componentName + "-" + newId + tail == componentName + ['-'] + rest;
      SplitConcat(componentName, rest, '-');
      SplitNoSeparator(componentName, '-');
    }
  }

  /**
    For an id `componentName-newId`, possibly followed by more `-` pieces: a
    long component name is cut and only `-newId` is kept after it, dropping the
    later pieces; an id with a short component name is returned unchanged.
   */
  lemma TruncateWellFormedId(componentName: string, newId: string, tail: string)
    requires '-' !in componentName && '-' !in newId && (tail == [] || tail[0] == '-')
    ensures TruncateLongId(componentName + "-" + newId + tail) ==
      if |componentName| > MaxShownLength then componentName[..MaxShownLength] + "..." + "-" + newId
      else componentName + "-" + newId + tail
  {
    WellFormedPieces(componentName, newId, tail);
  }

  /**
    The id part is the text between the first and the second `-`, whatever
    follows the second.
   */
  lemma ExtractWellFormedId(componentName: string, newId: string, tail: string)
    requires '-' !in componentName && '-' !in newId && (tail == [] || tail[0] == '-')
    ensures ExtractIdFromLongId(componentName + "-" + newId + tail) == Some(newId)
  {
    WellFormedPieces(componentName, newId, tail);
  }

  /** The id part survives truncation whenever the id holds a `-`. */
  lemma ExtractAfterTruncate(id: string)
    requires '-' in id
    ensures ExtractIdFromLongId(TruncateLongId(id)) == ExtractIdFromLongId(id)
  {
    var parts := Split(id, '-');
    SplitSinglePiece(id, '-');
    if |parts[0]| > MaxShownLength {
      var shortName := parts[0][..MaxShownLength] + "...";
      assert '-' !in shortName by {
        assert forall i :: 0 <= i < MaxShownLength ==> shortName[i] == parts[0][i];
      }
      assert TruncateLongId(id) == shortName + ['-'] + parts[1];
      SplitConcat(shortName, parts[1], '-');
      SplitNoSeparator(shortName, '-');
      SplitNoSeparator(parts[1], '-');
    }
  }

  /**
    Without a `-`, a long id gets the text "-undefined" appended, because the
    missing second piece is `undefined` and string concatenation spells it out.
   */
  lemma TruncateIdWithoutDash(id: string)
    requires '-' !in id && |id| > MaxShownLength
    ensures TruncateLongId(id) == id[..MaxShownLength] + "...-undefined"
  {
    var shortName := id[..MaxShownLength] + "...";
    assert TruncateLongId(id) == shortName + "-" + "undefined" by {
      SplitNoSeparator(id, '-');
    }
    assert shortName + "-" + "undefined" == id[..MaxShownLength] + "...-undefined";
  }

  // ---------------------------------------------------------------------
  // getFieldTitle
  // ---------------------------------------------------------------------

  /**
    `getFieldTitle`: the field's `display_name` when it is non-empty, else the
    title case of its `name` when that is non-empty, else the title case of the
    field's key. The source throws when the key is missing from the template and
    when the text it title-cases has an empty word.
   */
  function GetFieldTitle(template: map<string, TemplateField>, templateField: string): (r: string)
    requires templateField in template
    requires var f := template[templateField];
      Truthy(f.displayName) ||
      (Truthy(f.name) && DelimitedWordsNonEmpty(f.name.value)) ||
      (!Truthy(f.name) && DelimitedWordsNonEmpty(templateField))
    ensures r != []
    ensures Truthy(template[templateField].displayName) ==> r == template[templateField].displayName.value
    ensures !Truthy(template[templateField].displayName) ==>
      var source := if Truthy(template[templateField].name) then template[templateField].name.value else templateField;
      r == ToTitleCase(source) && |r| == |source| && '_' !in r && '-' !in r
  {
    var f := template[templateField];
    if Truthy(f.displayName) then f.displayName.value
    else if Truthy(f.name) then ToTitleCase(f.name.value)
    else ToTitleCase(templateField)
  }

  // ---------------------------------------------------------------------
  // getChatInputField
  // ---------------------------------------------------------------------

  /** The `input_keys` the condition of getChatInputField reaches, when every step is present. */
  function InputKeys(flowId: string, tabsState: Option<map<string, TabState>>): Option<seq<string>>
  {
    if tabsState.Some? && flowId in tabsState.value && tabsState.value[flowId].formKeysData.Some?
    then tabsState.value[flowId].formKeysData.value.inputKeys
    else None
  }

  /**
    `getChatInputField`: "text" unless the tab of the flow has input keys, in
    which case the first input key; an empty `input_keys` object yields
    `undefined` (None).
   */
  function GetChatInputField(flowId: string, tabsState: Option<map<string, TabState>>): (r: Option<string>)
    ensures InputKeys(flowId, tabsState).None? ==> r == Some("text")
    ensures InputKeys(flowId, tabsState) == Some([]) ==> r == None
    ensures InputKeys(flowId, tabsState).Some? && InputKeys(flowId, tabsState).value != [] ==>
      r == Some(InputKeys(flowId, tabsState).value[0])
  {
    if tabsState.Some? && flowId in tabsState.value
      && tabsState.value[flowId].formKeysData.Some?
      && tabsState.value[flowId].formKeysData.value.inputKeys.Some?
    then
      var keys := tabsState.value[flowId].formKeysData.value.inputKeys.value;
      if keys != [] then Some(keys[0]) else None
    else
      Some("text")
  }
}
