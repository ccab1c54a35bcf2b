/** The program's own table of daily targets, kept apart from the scoring
    definitions so that proofs about the score in general do not carry it. */
module TargetTable {
  import opened Catalog
  import opened Recipes
  import opened Scoring
  import opened Results
  import opened HillClimb
  import opened Descent

  /** The daily targets, in the order the program applies them (max 0: no upper bound). */
  const Targets: seq<Target> := [
    Target("Total lipid (fat)", 60.0, 300.0),
    Target("Energy, kcal", 2700.0, 10000.0),
    Target("Protein", 101.5, 3510.0),
    Target("Fiber, total dietary", 38.0, 0.0),
    Target("Calcium, Ca", 1000.0, 2500.0),
    Target("Iron, Fe", 8.0, 45.0),
    Target("Magnesium, Mg", 400.0, 0.0),
    Target("Phosphorus, P", 700.0, 4000.0),
    Target("Potassium, K", 4700.0, 0.0),
    Target("Sodium, Na", 1500.0, 2300.0),
    Target("Zinc, Zn", 11.0, 40.0),
    Target("Copper, Cu", 0.9, 10.0),
    Target("Manganese, Mn", 2.3, 11.0),
    Target("Selenium, Se", 55.0, 400.0),
    Target("Vitamin A, RAE", 900.0, 1500.0),
    Target("Vitamin E (alpha-tocopherol)", 15.0, 1000.0),
    Target("Lutein + zeaxanthin", 12000.0, 0.0),
    Target("Vitamin C, total ascorbic acid", 90.0, 2000.0),
    Target("Thiamin", 1.2, 0.0),
    Target("Riboflavin", 1.3, 0.0),
    Target("Niacin", 16.0, 35.0),
    Target("Pantothenic acid", 5.0, 0.0),
    Target("Vitamin B-6", 1.3, 100.0),
    Target("Vitamin B-12", 2.4, 0.0),
    Target("Choline, total", 550.0, 3500.0),
    Target("Vitamin K (phylloquinone)", 120.0, 0.0),
    Target("Lysine", 1.95, 0.0),
    Target("Leucine", 2.535, 0.0),
    Target("Methionine", 0.65, 0.0),
    Target("Cystine", 0.26, 0.0),
    Target("Valine", 1.69, 0.0),
    Target("Histidine", 0.65, 0.0),
    Target("Tryptophan", 0.26, 0.0),
    Target("Threonine", 0.975, 0.0),
    Target("Isoleucine", 1.3, 0.0),
    Target("18:3 n-3 c,c,c (ALA)", 1.6, 0.0),
    Target("20:5 n-3 (EPA)", 1.6, 0.0),
    Target("22:6 n-3 (DHA)", 1.6, 0.0),
    Target("Water", 946.0, 0.0)
  ]

  lemma TargetsAreValid()
    ensures ValidTargets(Targets) && |Targets| == 39
  {
  }

  /** With this 39-row table the empty recipe scores 4100. */
  lemma EmptyRecipeScoresTable(cat: Catalog)
    ensures ValidTargets(Targets)
    ensures Score(Targets, cat.nameToId, NewRecipe(cat)) == 4100.0
  {
    TargetsAreValid();
    EmptyRecipeScore(cat, Targets);
  }

  /** With no foods to try, the optimisation under this table stops at once
      at the empty recipe, a local optimum scoring 4100. */
  lemma EmptyCatalogOptimumUnderTable(cat: Catalog, fuel: nat)
    requires cat.foods == [] && fuel > 0
    ensures ValidTargets(Targets)
    ensures Optimise(cat, Objective(cat, Targets), fuel) == Success(Outcome(NewRecipe(cat), 4100.0, [4100.0], LocalOptimum))
  {
    TargetsAreValid();
    EmptyCatalogOptimum(cat, Targets, fuel);
  }
}
