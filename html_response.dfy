/** `HtmlResponse.gerarResposta`: the "human readable" payload, a fixed text
  * with the name and the e-mail address inserted verbatim. The markup in the
  * fixed text is written with the entity names `&lt` and `&gt` (without a
  * closing `;`), so the fixed text holds no `<` or `>` of its own. */
module HtmlResponse {

  const Opening: string := "&lthtml&gt\n" + " &ltbody&gt\n" + " &ltp&gtNome: "
  const Between: string := "&lt/p&gt\n" + " &ltp&gtEmail: "
  const Closing: string := "&lt/p&gt\n" + " &lt/body&gt\n" + "&lt/html&gt"

  /** Index at which `"Nome: "` starts. */
  const NameLabelAt: nat := 31
  /** Number of fixed chars in the payload. */
  const FixedLength: nat := 94

  /** No `<`, `>` or `;` in `s`. */
  predicate NoMarkup(s: string)
  {
    '<' !in s && '>' !in s && ';' !in s
  }

  /** True when index `i` of a payload built from a name of length `n` and an
    * e-mail address of length `m` falls inside one of the two slots. */
  predicate InSlot(n: nat, m: nat, i: int)
  {
    (37 <= i < 37 + n) || (61 + n <= i < 61 + n + m)
  }

  function GerarResposta(nome: string, email: string): (r: string)
    ensures |r| == FixedLength + |nome| + |email|
    ensures r[NameLabelAt..37 + |nome|] == "Nome: " + nome
    ensures r[54 + |nome|..61 + |nome| + |email|] == "Email: " + email
    ensures forall i :: 0 <= i < |r| && !InSlot(|nome|, |email|, i) ==> r[i] != '<' && r[i] != '>' && r[i] != ';'
  {
    FixedParts();
    Labels(Opening, nome, Between, email);
    OutsideSlots(Opening, nome, Between, email, Closing);
    Opening + nome + Between + email + Closing
  }

  /** The lengths and labels of the fixed parts, and that they hold no markup. */
  lemma FixedParts()
    ensures |Opening| == 37 && |Between| == 24 && |Closing| == 33
    ensures Opening[NameLabelAt..] == "Nome: " && Between[17..] == "Email: "
    ensures NoMarkup(Opening) && NoMarkup(Between) && NoMarkup(Closing)
  {
    OpeningHasNoMarkup();
    BetweenHasNoMarkup();
    ClosingHasNoMarkup();
  }

  lemma Labels(a: string, x: string, b: string, y: string)
    requires |a| == 37 && |b| == 24
    ensures (a + x + b + y)[NameLabelAt..37 + |x|] == a[NameLabelAt..] + x
    ensures (a + x + b + y)[54 + |x|..61 + |x| + |y|] == b[17..] + y
  {
  }

  /** Outside the slots of `x` and `y`, a char of `a + x + b + y + c` is a char
    * of `a`, `b` or `c`. */
  lemma OutsideSlots(a: string, x: string, b: string, y: string, c: string)
    requires |a| == 37 && |b| == 24
    requires NoMarkup(a) && NoMarkup(b) && NoMarkup(c)
    ensures var r := a + x + b + y + c;
      forall i :: 0 <= i < |r| && !InSlot(|x|, |y|, i) ==> r[i] != '<' && r[i] != '>' && r[i] != ';'
  {
    var r := a + x + b + y + c;
    forall i | 0 <= i < |r| && !InSlot(|x|, |y|, i)
      ensures r[i] != '<' && r[i] != '>' && r[i] != ';'
    {
      if i < 37 {
        assert r[i] == a[i];
      } else if i < 61 + |x| {
        assert r[i] == b[i - 37 - |x|];
      } else {
        assert r[i] == c[i - 61 - |x| - |y|];
      }
    }
  }

  lemma OpeningHasNoMarkup()
    ensures NoMarkup(Opening)
  {
    assert NoMarkup("&lthtml&gt\n");
    assert NoMarkup(" &ltbody&gt\n");
    assert NoMarkup(" &ltp&gtNome: ");
  }

  lemma BetweenHasNoMarkup()
    ensures NoMarkup(Between)
  {
    assert NoMarkup("&lt/p&gt\n");
    assert NoMarkup(" &ltp&gtEmail: ");
  }

  lemma ClosingHasNoMarkup()
    ensures NoMarkup(Closing)
  {
    assert NoMarkup("&lt/p&gt\n");
    assert NoMarkup(" &lt/body&gt\n");
    assert NoMarkup("&lt/html&gt");
  }

  /** The name's label comes before the e-mail's label. */
  lemma NameBeforeEmail(nome: string, email: string)
    ensures var r := GerarResposta(nome, email);
      && "Nome: " + nome <= r[NameLabelAt..]
      && "Email: " + email <= r[54 + |nome|..]
      && NameLabelAt + |"Nome: " + nome| < 54 + |nome|
  {
    var r := GerarResposta(nome, email);
    assert r[NameLabelAt..][..6 + |nome|] == r[NameLabelAt..37 + |nome|];
    assert r[54 + |nome|..][..7 + |email|] == r[54 + |nome|..61 + |nome| + |email|];
  }

  /** With a name and an e-mail free of `<` and `>`, the payload holds neither:
    * nothing is turned into real markup. */
  lemma NoAngleBrackets(nome: string, email: string)
    requires '<' !in nome && '>' !in nome && '<' !in email && '>' !in email
    ensures '<' !in GerarResposta(nome, email) && '>' !in GerarResposta(nome, email)
  {
    var r := GerarResposta(nome, email);
    forall i | 0 <= i < |r| && InSlot(|nome|, |email|, i)
      ensures r[i] != '<' && r[i] != '>'
    {
      if i < 37 + |nome| {
        assert r[i] == r[NameLabelAt..37 + |nome|][i - NameLabelAt];
        assert r[i] == nome[i - 37];
      } else {
        assert r[i] == r[54 + |nome|..61 + |nome| + |email|][i - 54 - |nome|];
        assert r[i] == email[i - 61 - |nome|];
      }
    }
  }
}
