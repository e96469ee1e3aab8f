/**
  The chatbot's synthetic knowledge base (`_generate_documents`): a table
  from each branch of law to its `(title, content)` snippets, flattened in
  table order into three index-aligned lists.
 */
module Corpus {

  datatype Snippet = Snippet(title: string, content: string)

  /** One entry of the table: a category and its snippets, in order. */
  datatype Section = Section(category: string, snippets: seq<Snippet>)

  /** The table, in its declaration order (a Python dict keeps insertion order). */
  const Data: seq<Section> := [Consumer, Labour, CivilLaw, Constitutional, Criminal, Family, Administrative]

  const Consumer: Section := Section("Consumidor", [
      Snippet("Direito de Arrependimento",
        "O consumidor pode desistir de compras online em até 7 dias, com reembolso integral."),
      Snippet("Garantia Legal",
        "Produtos duráveis possuem garantia legal mínima de 90 dias conforme o CDC."),
      Snippet("Propaganda Enganosa",
        "É proibido veicular publicidade enganosa ou abusiva; o fornecedor deve corrigir e indenizar."),
      Snippet("Troca de Produtos",
        "Lojas não são obrigadas a trocar produtos sem defeito, exceto se oferecerem essa política."),
      Snippet("Responsabilidade Solidária",
        "Fabricante, distribuidor e vendedor respondem solidariamente por vícios do produto."),
      Snippet("Dano Moral ao Consumidor",
        "Cobrança indevida gera direito à repetição do indébito e indenização por dano moral."),
      Snippet("Entrega em Atraso",
        "O atraso na entrega permite ao consumidor rescindir o contrato ou exigir cumprimento forçado."),
      Snippet("Cadastro Positivo",
        "Consumidores têm direito de acessar e corrigir seus dados em cadastros de crédito."),
      Snippet("Compras Internacionais",
        "Importações pela internet seguem as regras do CDC quanto a garantia e arrependimento."),
      Snippet("Venda Casada",
        "É vedada a prática de condicionar a venda de um produto à compra de outro."),
      Snippet("Direito à Informação",
        "O consumidor tem direito de ser informado de forma clara e adequada sobre produtos e serviços."),
      Snippet("Preços Claros",
        "O fornecedor deve informar preços de forma clara e sem ambiguidades."),
      Snippet("Indenização por Danos",
        "Consumidores lesados por produtos ou serviços têm direito a indenização por perdas e danos."),
      Snippet("Direito à Segurança",
        "Produtos e serviços não devem apresentar riscos à saúde ou segurança do consumidor."),
      Snippet("Proteção contra Cláusulas Abusivas",
        "Contratos de consumo não podem conter cláusulas que coloquem o consumidor em desvantagem excessiva."),
      Snippet("Direito de Reclamar",
        "O consumidor pode reclamar de falhas na prestação do serviço ou qualidade do produto a qualquer momento.")
  ])

  const Labour: Section := Section("Trabalho", [
      Snippet("Férias Anuais",
        "Após 12 meses de trabalho, o empregado tem direito a 30 dias de férias remuneradas."),
      Snippet("Décimo Terceiro",
        "O 13º salário corresponde à remuneração devida em dezembro, pago em duas parcelas."),
      Snippet("FGTS",
        "O Fundo de Garantia do Tempo de Serviço é depositado mensalmente pelo empregador."),
      Snippet("Aviso Prévio",
        "O aviso prévio proporcional ao tempo de serviço deve ser concedido na rescisão sem justa causa."),
      Snippet("Horas Extras",
        "Trabalho além da jornada normal deve ser remunerado com adicional mínimo de 50%."),
      Snippet("Licença Maternidade",
        "A gestante tem direito a 120 dias de licença remunerada, prorrogáveis em alguns casos."),
      Snippet("Licença Paternidade",
        "O pai tem direito a 5 dias de licença remunerada após o nascimento do filho."),
      Snippet("Seguro-Desemprego",
        "Trabalhadores dispensados sem justa causa podem receber parcelas de seguro-desemprego."),
      Snippet("Trabalho Noturno",
        "Trabalho noturno urbano entre 22h e 5h deve ter remuneração superior."),
      Snippet("Intervalo Intrajornada",
        "Empregados que trabalham mais de 6 horas têm direito a intervalo mínimo de 1 hora.")
  ])

  const CivilLaw: Section := Section("Civil", [
      Snippet("Contratos",
        "Contratos são acordos entre partes com obrigações recíprocas; exigem boa-fé."),
      Snippet("Posse",
        "Posse é o exercício de fato de poderes inerentes à propriedade."),
      Snippet("Usucapião",
        "A aquisição de propriedade por usucapião exige posse contínua e incontestada por certo prazo."),
      Snippet("Responsabilidade Civil",
        "Quem causa dano a outrem é obrigado a repará-lo."),
      Snippet("Doação",
        "Doação é o contrato em que uma pessoa transfere bens ou vantagens a outra gratuitamente."),
      Snippet("Herança",
        "Na sucessão legítima, os herdeiros recebem o patrimônio conforme a ordem de vocação hereditária."),
      Snippet("Casamento",
        "É união entre duas pessoas, instituída perante a lei, com regime de bens escolhido pelos cônjuges."),
      Snippet("Locação",
        "Contrato de locação de imóvel é oneroso e requer prazo e valor estabelecidos."),
      Snippet("Alienação Fiduciária",
        "Bem é transferido em garantia até o cumprimento da obrigação pelo devedor."),
      Snippet("Penhor",
        "Bem móvel dado em garantia, podendo a posse ficar com o devedor ou credor.")
  ])

  const Constitutional: Section := Section("Constitucional", [
      Snippet("Liberdade de Expressão",
        "A Constituição assegura a livre manifestação do pensamento, vedado o anonimato."),
      Snippet("Igualdade",
        "Todos são iguais perante a lei, sem distinção de qualquer natureza."),
      Snippet("Direito à Vida",
        "O direito à vida é inviolável, abrangendo proteção contra ameaças."),
      Snippet("Direito de Propriedade",
        "A propriedade deve atender à sua função social."),
      Snippet("Separação de Poderes",
        "Executivo, Legislativo e Judiciário são independentes e harmônicos."),
      Snippet("Saúde e Educação",
        "São direitos de todos e dever do Estado, garantidos mediante políticas sociais."),
      Snippet("Direitos Sociais",
        "Trabalho, moradia, lazer e segurança são direitos fundamentais."),
      Snippet("Mandado de Segurança",
        "Garantia constitucional para proteger direito líquido e certo."),
      Snippet("Habeas Corpus",
        "Remédio constitucional contra ilegalidade ou abuso de poder na liberdade de ir e vir."),
      Snippet("Nacionalidade",
        "Regula quem é brasileiro nato ou naturalizado.")
  ])

  const Criminal: Section := Section("Penal", [
      Snippet("Furto Simples",
        "Subtrair para si ou para outrem coisa alheia móvel sem violência ou grave ameaça."),
      Snippet("Roubo",
        "Subtrair coisa móvel com emprego de grave ameaça ou violência à pessoa."),
      Snippet("Homicídio",
        "Tirar a vida de alguém; pena varia conforme qualificadoras."),
      Snippet("Lesão Corporal",
        "Ofender a integridade corporal ou a saúde de outrem."),
      Snippet("Estelionato",
        "Obter vantagem ilícita induzindo alguém a erro mediante fraude."),
      Snippet("Receptação",
        "Adquirir, receber ou transportar coisa proveniente de crime."),
      Snippet("Tráfico de Drogas",
        "Importar, exportar ou comercializar drogas sem autorização."),
      Snippet("Lavagem de Dinheiro",
        "Ocultar a origem ilícita de bens ou valores."),
      Snippet("Crimes Cibernéticos",
        "Praticar delitos por meio de dispositivos digitais ou rede."),
      Snippet("Pena de Multa",
        "Pena pecuniária aplicada isoladamente ou cumulada com outra pena.")
  ])

  const Family: Section := Section("Família", [
      Snippet("Guarda Compartilhada",
        "Responsabilidade conjunta dos pais nas decisões sobre os filhos."),
      Snippet("Adoção",
        "Processo judicial que estabelece vínculo parental entre adotante e adotado."),
      Snippet("Pensão Alimentícia",
        "Prestação financeira devida para subsistência de filhos ou cônjuges."),
      Snippet("Divórcio",
        "Extinção do vínculo matrimonial com partilha de bens e definição de guarda."),
      Snippet("União Estável",
        "Convivência pública e duradoura configurada como entidade familiar."),
      Snippet("Tutela",
        "Proteção de menores quando os pais não podem exercer o poder familiar."),
      Snippet("Curatela",
        "Administração dos bens de pessoas incapazes maiores de idade."),
      Snippet("Regime de Bens",
        "Define como se dará a administração e partilha do patrimônio do casal."),
      Snippet("Alimentos Gravídicos",
        "Prestação devida para cobrir despesas da gestante."),
      Snippet("Paternidade Socioafetiva",
        "Reconhecimento jurídico do vínculo afetivo como parentalidade.")
  ])

  const Administrative: Section := Section("Administrativo", [
      Snippet("Atos Administrativos",
        "Manifestação unilateral da Administração que produz efeitos jurídicos."),
      Snippet("Poder de Polícia",
        "Competência da Administração de restringir direitos individuais em benefício coletivo."),
      Snippet("Licitações",
        "Procedimentos para contratação de serviços ou compras pela Administração."),
      Snippet("Improbidade Administrativa",
        "Condutas ilícitas de agentes que atentem contra a administração pública."),
      Snippet("Serviços Públicos",
        "Atividades de interesse coletivo prestadas ou reguladas pelo Estado."),
      Snippet("Bens Públicos",
        "Bens pertencentes às pessoas jurídicas de direito público, inalienáveis enquanto conservarem a sua afetação."),
      Snippet("Agentes Públicos",
        "Indivíduos que exercem função pública seja efetiva ou temporariamente."),
      Snippet("Concurso Público",
        "Processo seletivo para ingresso em cargos efetivos na Administração."),
      Snippet("Responsabilidade do Estado",
        "O Estado responde pelos danos que seus agentes causarem a terceiros."),
      Snippet("Convênios Administrativos",
        "Instrumentos de cooperação entre entes para execução de objetivos comuns.")
  ])

  // ---------------------------------------------------------------------------
  // The three flat lists, as functions of the table
  // ---------------------------------------------------------------------------

  /** The number of snippets in the table. */
  function Size(data: seq<Section>): nat {
    if data == [] then 0 else Size(data[..|data| - 1]) + |data[|data| - 1].snippets|
  }

  /** Where section `k`'s snippets start in the flat lists. */
  function Offset(data: seq<Section>, k: nat): nat
    requires k <= |data|
  {
    Size(data[..k])
  }

  function ContentsOf(snippets: seq<Snippet>): (c: seq<string>)
    ensures |c| == |snippets|
  {
    seq(|snippets|, i requires 0 <= i < |snippets| => snippets[i].content)
  }

  function TitlesOf(snippets: seq<Snippet>): (t: seq<string>)
    ensures |t| == |snippets|
  {
    seq(|snippets|, i requires 0 <= i < |snippets| => snippets[i].title)
  }

  /** `docs`: every snippet's content, section after section. */
  function Documents(data: seq<Section>): (d: seq<string>)
    ensures |d| == Size(data)
  {
    if data == [] then [] else Documents(data[..|data| - 1]) + ContentsOf(data[|data| - 1].snippets)
  }

  /** `titles`: every snippet's title, section after section. */
  function Titles(data: seq<Section>): (t: seq<string>)
    ensures |t| == Size(data)
  {
    if data == [] then [] else Titles(data[..|data| - 1]) + TitlesOf(data[|data| - 1].snippets)
  }

  /** `categories`: each snippet's section name, section after section. */
  function Categories(data: seq<Section>): (c: seq<string>)
    ensures |c| == Size(data)
  {
    if data == [] then []
    else
      var last := data[|data| - 1];
      Categories(data[..|data| - 1]) + seq(|last.snippets|, _ => last.category)
  }

  // ---------------------------------------------------------------------------
  // The nested loops
  // ---------------------------------------------------------------------------

  /** The two nested `for` loops that append one entry per snippet to each list. */
  method Flatten(data: seq<Section>) returns (docs: seq<string>, titles: seq<string>, categories: seq<string>)
    ensures docs == Documents(data) && titles == Titles(data) && categories == Categories(data)
  {
    docs, titles, categories := [], [], [];
    for k := 0 to |data|
      invariant docs == Documents(data[..k])
      invariant titles == Titles(data[..k])
      invariant categories == Categories(data[..k])
    {
      var section := data[k];
      assert data[..k + 1][..k] == data[..k];
      for j := 0 to |section.snippets|
        invariant docs == Documents(data[..k]) + ContentsOf(section.snippets[..j])
        invariant titles == Titles(data[..k]) + TitlesOf(section.snippets[..j])
        invariant categories == Categories(data[..k]) + seq(j, _ => section.category)
      {
        var snippet := section.snippets[j];
        SnippetsStep(section.snippets, j);
        assert seq(j + 1, _ => section.category) == seq(j, _ => section.category) + [section.category];
        titles := titles + [snippet.title];
        docs := docs + [snippet.content];
        categories := categories + [section.category];
      }
      assert section.snippets[..|section.snippets|] == section.snippets;
    }
    assert data[..|data|] == data;
  }

  /** One more snippet adds its text and its title at the end. */
  lemma SnippetsStep(snippets: seq<Snippet>, j: nat)
    requires j < |snippets|
    ensures ContentsOf(snippets[..j + 1]) == ContentsOf(snippets[..j]) + [snippets[j].content]
    ensures TitlesOf(snippets[..j + 1]) == TitlesOf(snippets[..j]) + [snippets[j].title]
  {
  }

  /** `_generate_documents()`: the flattened table. */
  method GenerateDocuments() returns (docs: seq<string>, titles: seq<string>, categories: seq<string>)
    ensures docs == Documents(Data) && titles == Titles(Data) && categories == Categories(Data)
  {
    docs, titles, categories := Flatten(Data);
  }

  // ---------------------------------------------------------------------------
  // Properties
  // ---------------------------------------------------------------------------

  /** Snippet `j` of section `k` sits at `Offset(data, k) + j` of all three
      lists, with its own content and title and its section's name. */
  lemma {:induction false} FlattenLocates(data: seq<Section>, k: nat, j: nat)
    requires k < |data| && j < |data[k].snippets|
    ensures Offset(data, k) + j < Size(data)
    ensures Documents(data)[Offset(data, k) + j] == data[k].snippets[j].content
    ensures Titles(data)[Offset(data, k) + j] == data[k].snippets[j].title
    ensures Categories(data)[Offset(data, k) + j] == data[k].category
    decreases |data|
  {
    var init := data[..|data| - 1];
    var last := data[|data| - 1];
    assert Documents(data) == Documents(init) + ContentsOf(last.snippets);
    assert Titles(data) == Titles(init) + TitlesOf(last.snippets);
    assert Categories(data) == Categories(init) + seq(|last.snippets|, _ => last.category);
    if k < |init| {
      assert init[..k] == data[..k];
      FlattenLocates(init, k, j);
    } else {
      assert data[..k] == init;
      assert Offset(data, k) == Size(init);
    }
  }

  /** Entry `i` of the flat lists is snippet `j` of section `k`. */
  ghost predicate Locates(data: seq<Section>, k: int, j: int, i: int) {
    0 <= k < |data| && 0 <= j < |data[k].snippets| && i == Offset(data, k) + j
  }

  /** Every entry of the flat lists comes from one snippet of the table. */
  lemma {:induction false} FlattenCovers(data: seq<Section>, i: nat)
    requires i < Size(data)
    ensures exists k, j :: Locates(data, k, j, i)
    decreases |data|
  {
    var init := data[..|data| - 1];
    if i < Size(init) {
      FlattenCovers(init, i);
      var k, j :| Locates(init, k, j, i);
      assert init[..k] == data[..k];
      assert Locates(data, k, j, i);
    } else {
      assert data[..|data| - 1] == init;
      assert Locates(data, |data| - 1, i - Size(init), i);
    }
  }

  /** The three lists are aligned: entry `i` of each belongs to the same
      snippet, and the category is the key whose list holds that snippet. */
  lemma FlattenAligned(data: seq<Section>, i: nat)
    requires i < Size(data)
    ensures |Documents(data)| == |Titles(data)| == |Categories(data)|
    ensures exists k, j ::
      && Locates(data, k, j, i)
      && Categories(data)[i] == data[k].category
      && Titles(data)[i] == data[k].snippets[j].title
      && Documents(data)[i] == data[k].snippets[j].content
  {
    FlattenCovers(data, i);
    var k, j :| Locates(data, k, j, i);
    FlattenLocates(data, k, j);
  }

  /** The table has seven categories: 16 consumer-law snippets, then ten for
      each of the other six branches, so the lists hold 76 entries. */
  lemma DataShape()
    ensures |Data| == 7
    ensures Data[0].category == "Consumidor" && |Data[0].snippets| == 16
    ensures forall k :: 1 <= k < 7 ==> |Data[k].snippets| == 10
    ensures [Data[1].category, Data[2].category, Data[3].category, Data[4].category, Data[5].category, Data[6].category]
         == ["Trabalho", "Civil", "Constitucional", "Penal", "Família", "Administrativo"]
    ensures Size(Data) == 76
  {
    assert Data[..6][..5] == Data[..5];
    assert Data[..5][..4] == Data[..4];
    assert Data[..4][..3] == Data[..3];
    assert Data[..3][..2] == Data[..2];
    assert Data[..2][..1] == Data[..1];
    assert Data[..1][..0] == [];
    assert Size(Data[..1]) == 16;
    assert Size(Data[..2]) == 26;
    assert Size(Data[..3]) == 36;
    assert Size(Data[..4]) == 46;
    assert Size(Data[..5]) == 56;
    assert Size(Data[..6]) == 66;
  }
}
