/** What stands where a server-side directive stood. */
module SsiLaws {
  import opened Bytes
  import opened Ssi

  /** `<!--#`, a text without `>`, and `>`. */
  function Tag(inner: bytes): bytes {
    [0x3C, 0x21, 0x2D, 0x2D, 0x23] + (inner + [0x3E])
  }

  /** `include` and `exec` */
  const INCLUDE_WORD: bytes := [0x69, 0x6E, 0x63, 0x6C, 0x75, 0x64, 0x65]
  const EXEC_WORD: bytes := [0x65, 0x78, 0x65, 0x63]

  lemma {:induction false} FirstClosing(s: bytes, k: nat)
    requires k < |s| && s[k] == GT && forall i :: 0 <= i < k ==> s[i] != GT
    ensures Closing(s) == k
    decreases k
  {
    if k > 0 {
      FirstClosing(s[1..], k - 1);
    }
  }

  lemma TagIsDirective(inner: bytes, after: bytes)
    requires GT !in inner && |inner| < 8186
    ensures Atoms(Tag(inner) + after) == [Directive(Tag(inner))] + Atoms(after)
  {
    var tag := Tag(inner);
    var s, k := tag + after, |inner| + 5;
    assert |tag| == k + 1 && s[0] == LT;
    forall i | 0 <= i < k ensures s[i] != GT {
      if i >= 5 {
        assert s[i] == inner[i - 5];
      }
    }
    FirstClosing(s, k);
    assert s[..k + 1] == tag && s[k + 1..] == after;
    assert SSI_START <= tag;
  }

  lemma {:induction false} TextIsBytes(before: bytes, s: bytes)
    requires LT !in before
    ensures Atoms(before + s) == Plain(before) + Atoms(s)
    decreases |before|
  {
    if before == [] {
      assert before + s == s && [] + Atoms(s) == Atoms(s);
    } else {
      var t := before + s;
      assert t[0] == before[0] && before[0] in before && t[1..] == before[1..] + s;
      TextIsBytes(before[1..], s);
      hide Plain;
      PlainUnfolds(before);
      Assoc([Byte(before[0])], Plain(before[1..]), Atoms(s));
    }
  }

  lemma PlainUnfolds(s: bytes)
    requires s != []
    ensures Plain(s) == [Byte(s[0])] + Plain(s[1..])
  {
  }

  /** Text, a directive and more: the text as it is, what the directive stands for, and what the rest means. */
  lemma DirectiveInPage(env: Env, path: bytes, level: nat, before: bytes, inner: bytes, after: bytes)
    requires level <= 10 && env.read(path) == before + (Tag(inner) + after)
    requires LT !in before && GT !in inner && |inner| < 8186
    ensures Page(env, path, level)
         == before + (Obey(env, path, level, Tag(inner)) + Expand(env, path, level, Atoms(after)))
  {
    var tag := Tag(inner);
    TextIsBytes(before, tag + after);
    TagIsDirective(inner, after);
    hide Atoms, Obey, Tag;
    ExpandAppend(env, path, level, Plain(before), [Directive(tag)] + Atoms(after));
    ExpandPlain(env, path, level, before);
    assert ([Directive(tag)] + Atoms(after))[1..] == Atoms(after);
  }

  lemma PlainRest(env: Env, path: bytes, level: nat, after: bytes)
    requires level <= 10 && LT !in after
    ensures Expand(env, path, level, Atoms(after)) == after
  {
    TextIsBytes(after, []);
    ExpandPlain(env, path, level, after);
    assert after + [] == after && Plain(after) + [] == Plain(after);
  }

  lemma IncludeTag(arg: bytes)
    ensures var tag := Tag(INCLUDE_WORD + arg); |tag| > 12 && tag[5..12] == INCLUDE && tag[12..] == arg + [0x3E]
  {
  }

  lemma ExecTag(command: bytes)
    ensures var tag := Tag(EXEC_WORD + command);
            |tag| > 9 && tag[5..9] == EXEC && tag[9..] == command + [0x3E] && (|tag| > 12 ==> tag[5..12] != INCLUDE)
  {
    var tag := Tag(EXEC_WORD + command);
    assert |tag| > 12 ==> tag[5..12][0] == tag[5] == 0x65;
  }

  /** An include of a plain file puts the file in its place as it is; of a page, what the page means, two levels down;
      of nothing that is found, nothing. */
  lemma IncludeInserts(env: Env, path: bytes, level: nat, before: bytes, arg: bytes, after: bytes)
    requires level <= 10 && env.read(path) == before + (Tag(INCLUDE_WORD + arg) + after)
    requires LT !in before && LT !in after && GT !in arg && |arg| < 8179
    ensures match env.find(path, arg + [0x3E])
            case Static(p) => Page(env, path, level) == before + (env.read(p) + after)
            case Script(p) => Page(env, path, level) == before + (Page(env, p, level + 2) + after)
            case Missing => Page(env, path, level) == before + after
  {
    DirectiveInPage(env, path, level, before, INCLUDE_WORD + arg, after);
    PlainRest(env, path, level, after);
    IncludeTag(arg);
    hide Expand, Atoms, Tag;
    assert [] + after == after;
  }

  /** A command's output stands where its directive stood. */
  lemma ExecInserts(env: Env, path: bytes, level: nat, before: bytes, command: bytes, after: bytes)
    requires level <= 10 && env.read(path) == before + (Tag(EXEC_WORD + command) + after)
    requires LT !in before && LT !in after && GT !in command && |command| < 8182
    ensures Page(env, path, level) == before + (env.run(command + [0x3E]) + after)
  {
    DirectiveInPage(env, path, level, before, EXEC_WORD + command, after);
    PlainRest(env, path, level, after);
    ExecTag(command);
    hide Expand, Atoms, Tag, Page;
  }
}
