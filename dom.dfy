/**
 * The hosting document as the hook sees it: the fresh-name generator (`createRandomName`),
 * stylesheet insertion (`createTag`) and removal (`deleteRules`), with a log of the rule-set calls.
 */
module Dom {
  import opened Steps

  /** One rule-set call made on the document. */
  datatype SheetCall =
    | Insert(tag: Tag, name: Token, keyframes: seq<Style>)  // `createTag({ animationName, keyframes })`
    | Remove(tag: Tag, name: Token)                         // `deleteRules(tag.sheet, name)`

  class Document {
    /** The next name the generator hands out: names are never reused while the document lives. */
    var nextName: nat
    /** The next `<style>` element handle. */
    var nextTag: nat
    /** Every rule-set insertion and removal, in call order. */
    ghost var log: seq<SheetCall>

    constructor ()
      ensures nextName == 0 && nextTag == 0 && log == []
    {
      nextName := 0;
      nextTag := 0;
      log := [];
    }

    method CreateRandomName() returns (name: Token)
      modifies this`nextName
      ensures name == old(nextName) && nextName == name + 1
    {
      name := nextName;
      nextName := nextName + 1;
    }

    method CreateTag(name: Token, keyframes: seq<Style>) returns (tag: Tag)
      modifies this`nextTag, this`log
      ensures tag == old(nextTag) && nextTag == tag + 1
      ensures log == old(log) + [Insert(tag, name, keyframes)]
    {
      tag := nextTag;
      nextTag := nextTag + 1;
      log := log + [Insert(tag, name, keyframes)];
    }

    method DeleteRules(tag: Tag, name: Token)
      modifies this`log
      ensures log == old(log) + [Remove(tag, name)]
    {
      log := log + [Remove(tag, name)];
    }
  }
}
