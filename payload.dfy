/**
 * The form `create_meme` posts to the caption service (telegrambot.py:175-184): the account
 * name, the password and the template id under fixed keys, then `boxes[i][text]` for the i-th
 * caption. The count of captions is not compared with the template's `box_count`.
 */
module Payload {
  import opened Text

  const UsernameKey: string := "username"
  const PasswordKey: string := "password"
  const TemplateKey: string := "template_id"

  /** `'boxes[{}][text]'.format(i)` */
  function BoxKey(i: nat): string {
    "boxes[" + NatToString(i) + "][text]"
  }

  lemma BoxKeyInjective(i: nat, j: nat)
    requires BoxKey(i) == BoxKey(j)
    ensures i == j
  {
    var a, b := BoxKey(i), BoxKey(j);
    assert a[6..|a| - 7] == NatToString(i);
    assert b[6..|b| - 7] == NatToString(j);
    NatToStringInjective(i, j);
  }

  lemma BoxKeyNotFixed(i: nat)
    ensures BoxKey(i) != UsernameKey && BoxKey(i) != PasswordKey && BoxKey(i) != TemplateKey
  {
    assert BoxKey(i)[0] == 'b';
  }

  /** The key is `boxes[i][text]` for some caption index `i < n`. */
  ghost predicate IsBoxKey(key: string, n: nat) {
    exists i :: 0 <= i < n && BoxKey(i) == key
  }

  /** The form after the first `|args|` captions have been written. */
  function Form(username: string, password: string, templateId: string, args: seq<string>): map<string, string>
    decreases |args|
  {
    if args == [] then map[UsernameKey := username, PasswordKey := password, TemplateKey := templateId]
    else
      var n := |args| - 1;
      Form(username, password, templateId, args[..n])[BoxKey(n) := args[n]]
  }

  /** The form holds the three fixed fields unchanged, `boxes[i][text]` mapped to the i-th
      caption for every index, and nothing else: three keys more than there are captions. */
  ghost predicate FormFor(form: map<string, string>, username: string, password: string,
                          templateId: string, args: seq<string>) {
    && UsernameKey in form && form[UsernameKey] == username
    && PasswordKey in form && form[PasswordKey] == password
    && TemplateKey in form && form[TemplateKey] == templateId
    && (forall i :: 0 <= i < |args| ==> BoxKey(i) in form && form[BoxKey(i)] == args[i])
    && (forall key :: key in form ==> key in {UsernameKey, PasswordKey, TemplateKey} || IsBoxKey(key, |args|))
    && |form| == 3 + |args|
  }

  lemma FormForStep(prev: map<string, string>, username: string, password: string,
                    templateId: string, args: seq<string>)
    requires |args| > 0
    requires FormFor(prev, username, password, templateId, args[..|args| - 1])
    ensures FormFor(prev[BoxKey(|args| - 1) := args[|args| - 1]], username, password, templateId, args)
  {
    var n := |args| - 1;
    var form := prev[BoxKey(n) := args[n]];
    BoxKeyNotFixed(n);
    forall i | 0 <= i < n ensures BoxKey(i) != BoxKey(n) {
      if BoxKey(i) == BoxKey(n) {
        BoxKeyInjective(i, n);
      }
    }
    assert BoxKey(n) !in prev;
    forall i | 0 <= i < |args| ensures BoxKey(i) in form && form[BoxKey(i)] == args[i] {
      if i < n {
        assert args[..n][i] == args[i];
      }
    }
    forall key | key in form ensures key in {UsernameKey, PasswordKey, TemplateKey} || IsBoxKey(key, |args|) {
      if key != BoxKey(n) && key !in {UsernameKey, PasswordKey, TemplateKey} {
        assert IsBoxKey(key, n);
      }
    }
  }

  lemma {:induction false} FormContents(username: string, password: string, templateId: string, args: seq<string>)
    ensures FormFor(Form(username, password, templateId, args), username, password, templateId, args)
    decreases |args|
  {
    if args != [] {
      FormContents(username, password, templateId, args[..|args| - 1]);
      FormForStep(Form(username, password, templateId, args[..|args| - 1]), username, password, templateId, args);
    } else {
      var form := Form(username, password, templateId, args);
      assert form.Keys == {UsernameKey, PasswordKey, TemplateKey};
    }
  }

  /** Builds the dictionary as the source does: the fixed fields, then one key per caption. */
  method BuildForm(username: string, password: string, templateId: string, args: seq<string>)
    returns (data: map<string, string>)
    ensures data == Form(username, password, templateId, args)
  {
    data := map[UsernameKey := username, PasswordKey := password, TemplateKey := templateId];
    for i := 0 to |args|
      invariant data == Form(username, password, templateId, args[..i])
    {
      assert args[..i + 1][..i] == args[..i];
      data := data[BoxKey(i) := args[i]];
    }
    assert args[..|args|] == args;
  }
}
