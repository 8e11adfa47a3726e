/** The recipe catalog's meal record as the application receives it. */
module Catalog {

  /** `idMeal`, `strMeal`, `strMealThumb`, and every other catalog field
      (category, area, instructions, ingredient/measure pairs, ...) passed
      through untouched. */
  datatype Meal = Meal(id: string, name: string, thumb: string, details: map<string, string>)
}
