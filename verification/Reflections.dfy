/** The reflection records of one file, filled in from macros and from the annotations before them. */
module ReflectionRecords {
  import opened Lists
  import opened FieldMatching
  import opened MovedFields

  datatype Record = Record(fields: seq<string>, ignored: seq<string>, swapped: seq<string>) {
    /** What the check of a class relies on. */
    ghost predicate WellFormed() {
      NoDup(fields) && NoDup(ignored) && NoDup(swapped) && Elems(ignored) !! Elems(swapped)
    }

    ghost function Marks(): set<string> { Elems(ignored) + Elems(swapped) }

    function Marked(words: seq<string>, isIgnore: bool): Record {
      if isIgnore then this.(ignored := ignored + words) else this.(swapped := swapped + words)
    }
  }

  function Lookup(classes: map<string, Record>, name: string): Record {
    if name in classes then classes[name] else Record([], [], [])
  }

  lemma MarksGrow(rec: Record, words: seq<string>, isIgnore: bool)
    ensures rec.Marked(words, isIgnore).Marks() == rec.Marks() + Elems(words)
  {
  }

  /** Fresh, distinct words can be added as marks without breaking a record. */
  lemma MarkedWellFormed(rec: Record, word: string, isIgnore: bool)
    requires rec.WellFormed() && word !in rec.Marks()
    ensures rec.Marked([word], isIgnore).WellFormed()
  {
    NoDupSnoc(if isIgnore then rec.ignored else rec.swapped, word);
  }

  /** The first `n` words can all be added to a record that already has the marks `taken`. */
  ghost predicate Addable(words: seq<string>, n: nat, taken: set<string>)
    requires n <= |words|
  {
    NoDup(words[..n]) && Elems(words[..n]) !! taken
  }

  lemma AddableNone(words: seq<string>, taken: set<string>)
    ensures Addable(words, 0, taken)
  {
  }

  lemma AddableNext(words: seq<string>, n: nat, taken: set<string>)
    requires n < |words| && Addable(words, n, taken)
    ensures words[n] !in taken + Elems(words[..n]) ==> Addable(words, n + 1, taken)
    ensures words[n] in taken + Elems(words[..n]) ==> !Addable(words, |words|, taken)
  {
    assert words[..n + 1] == words[..n] + [words[n]];
    WholePrefix(words);
    if words[n] in taken {
      assert words[n] in Elems(words);
    } else if words[n] !in Elems(words[..n]) {
      NoDupSnoc(words[..n], words[n]);
    }
  }

  class Reflections {
    var classes: map<string, Record>

    constructor ()
      ensures Valid() && classes == map[]
    {
      classes := map[];
    }

    ghost predicate Valid()
      reads this
    {
      forall name :: name in classes ==> classes[name].WellFormed()
    }

    method FindOrAdd(name: string)
      requires Valid()
      modifies this
      ensures Valid()
      ensures name in old(classes) ==> classes == old(classes)
      ensures name !in old(classes) ==> classes == old(classes)[name := Record([], [], [])]
    {
      if name !in classes {
        classes := classes[name := Record([], [], [])];
      }
    }

    method AddField(name: string, field: string) returns (ok: bool)
      requires Valid()
      modifies this
      ensures Valid()
      ensures ok <==> field !in Lookup(old(classes), name).fields
      ensures var rec := Lookup(old(classes), name);
              classes == old(classes)[name := if ok then rec.(fields := rec.fields + [field]) else rec]
    {
      FindOrAdd(name);
      var rec := classes[name];
      if field in rec.fields { return false; }
      NoDupSnoc(rec.fields, field);
      classes := classes[name := rec.(fields := rec.fields + [field])];
      return true;
    }

    /** One word of an annotation; refused if the class already marks it, either way. */
    method AddMark(name: string, word: string, isIgnore: bool) returns (ok: bool)
      requires Valid()
      modifies this
      ensures Valid()
      ensures ok <==> word !in Lookup(old(classes), name).Marks()
      ensures var rec := Lookup(old(classes), name);
              classes == old(classes)[name := if !ok then rec
                                              else if isIgnore then Record(rec.fields, rec.ignored + [word], rec.swapped)
                                              else Record(rec.fields, rec.ignored, rec.swapped + [word])]
    {
      FindOrAdd(name);
      var rec := classes[name];
      ok := word !in rec.ignored && word !in rec.swapped;
      if ok {
        MarkedWellFormed(rec, word, isIgnore);
        classes := classes[name := rec.Marked([word], isIgnore)];
      }
    }

    /**
     * The words of one annotation. The first word that cannot be added stops
     * the file; the words before it have been recorded by then.
     */
    method AddIgnoreSwaps(name: string, words: seq<string>, isIgnore: bool) returns (ok: bool, done: nat)
      requires Valid()
      modifies this
      ensures Valid()
      ensures ok <==> Addable(words, |words|, Lookup(old(classes), name).Marks())
      ensures done <= |words| && (ok <==> done == |words|)
      ensures Addable(words, done, Lookup(old(classes), name).Marks())
      ensures !ok ==> words[done] in Lookup(old(classes), name).Marks() + Elems(words[..done])
      ensures words == [] ==> classes == old(classes)
      ensures words != [] ==>
                var rec := Lookup(old(classes), name);
                classes == old(classes)[name := if isIgnore then Record(rec.fields, rec.ignored + words[..done], rec.swapped)
                                                else Record(rec.fields, rec.ignored, rec.swapped + words[..done])]
    {
      hide NoDup, Elems, Record.WellFormed, Record.Marks;
      ghost var rec := Lookup(classes, name);
      ok, done := true, 0;
      AddableNone(words, rec.Marks());
      while done < |words|
        invariant done <= |words| && Valid() && ok
        invariant Lookup(classes, name) == rec.Marked(words[..done], isIgnore)
        invariant classes == if done == 0 then old(classes) else old(classes)[name := Lookup(classes, name)]
        invariant Addable(words, done, rec.Marks())
      {
        MarksGrow(rec, words[..done], isIgnore);
        AddableNext(words, done, rec.Marks());
        assert words[..done + 1] == words[..done] + [words[done]];
        ok := AddMark(name, words[done], isIgnore);
        if !ok { return; }
        done := done + 1;
      }
    }

    /** The check of one recorded class, which uses up the record's marks. */
    method CheckClass(name: string, classFields: seq<string>, ignoreId: bool) returns (v: Verdict)
      requires Valid() && name in classes
      modifies this
      ensures var rec := old(classes)[name];
              var implied := ignoreId && "id" !in rec.ignored && "id" !in rec.fields;
              Settles(v, Problem(classFields, rec.fields, if implied then rec.ignored + ["id"] else rec.ignored, rec.swapped))
      ensures classes.Keys == old(classes).Keys && forall n :: n in classes && n != name ==> classes[n] == old(classes)[n]
      ensures classes[name].fields == old(classes)[name].fields
      ensures v.Pass? ==> classes[name].ignored == [] && classes[name].swapped == []
    {
      var rec := classes[name];
      var reflection := new Reflection(rec.fields, rec.ignored, rec.swapped);
      v := reflection.CheckClass(classFields, ignoreId);
      classes := classes[name := rec.(ignored := reflection.ignored, swapped := reflection.swapped)];
    }
  }

  /** One class of a file: an annotation, a macro, and the check of the class against both. */
  method CheckAnnotated(name: string, classFields: seq<string>, reflected: seq<string>, words: seq<string>, isIgnore: bool)
    returns (v: Verdict)
    requires NoDup(reflected) && NoDup(words)
    ensures Settles(v, if isIgnore then Problem(classFields, reflected, words, []) else Problem(classFields, reflected, [], words))
  {
    hide Settles;
    var records := new Reflections();
    records.FindOrAdd(name);
    var ok, done := records.AddIgnoreSwaps(name, words, isIgnore);
    WholePrefix(words);
    assert ok by { assert Addable(words, |words|, {}); }
    assert [] + words == words;
    ghost var marks := records.classes[name];
    var i := 0;
    while i < |reflected|
      invariant i <= |reflected| && records.Valid() && fresh(records)
      invariant records.classes == map[name := marks.(fields := reflected[..i])]
    {
      NoDupFresh(reflected, i);
      assert reflected[..i + 1] == reflected[..i] + [reflected[i]];
      var added := records.AddField(name, reflected[i]);
      assert added;
      i := i + 1;
    }
    WholePrefix(reflected);
    v := records.CheckClass(name, classFields, false);
  }

  /** A class whose only field that is not reflected is ignored passes; marked as swapped instead, it does not. */
  method IgnoredFieldPasses(name: string, pre: seq<string>, x: string, post: seq<string>) returns (ignored: Verdict, swapped: Verdict)
    requires NoDup(pre + [x] + post)
    ensures ignored.Pass? && swapped.Fail?
  {
    hide NoDup, Accepted;
    UnreflectedField(pre, x, post);
    OneWord(x);
    ignored := CheckAnnotated(name, pre + [x] + post, pre + post, [x], true);
    swapped := CheckAnnotated(name, pre + [x] + post, pre + post, [x], false);
  }

  /** A field that is reflected behind later ones passes if it is marked as swapped; ignored instead, it does not. */
  method MovedFieldPasses(name: string, pre: seq<string>, x: string, m: seq<string>, post: seq<string>)
    returns (swapped: Verdict, ignored: Verdict)
    requires m != [] && NoDup(pre + [x] + m + post) && NoDup(pre + m + [x] + post)
    ensures swapped.Pass? && ignored.Fail?
  {
    hide NoDup, Accepted;
    MovedFieldLaw(pre, x, m, post, [x] + m);
    MovedFieldNotIgnored(pre, x, m, post);
    OneWord(x);
    swapped := CheckAnnotated(name, pre + [x] + m + post, pre + m + [x] + post, [x], false);
    ignored := CheckAnnotated(name, pre + [x] + m + post, pre + m + [x] + post, [x], true);
  }

  lemma OneWord(x: string)
    ensures NoDup([x])
  {
  }
}
