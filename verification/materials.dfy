/** Surface materials (materials.rs): a colour and four shading parameters.
    `reflectivity` decides whether `compute_color` casts a mirror ray;
    `phong_n` and `phong_ks` shape the specular highlight. */
module Materials {
  import opened Colors

  datatype Material = Material(color: Color, albedo: real, reflectivity: real, phongN: real, phongKs: real)

  /** `Material::new`: every argument is stored as given. */
  function New(color: Color, albedo: real, reflectivity: real, phongN: real, phongKs: real): (m: Material)
    ensures m.color == color && m.albedo == albedo && m.reflectivity == reflectivity
    ensures m.phongN == phongN && m.phongKs == phongKs
  {
    Material(color, albedo, reflectivity, phongN, phongKs)
  }

  /** `Material::shiny`: a sharp, faint highlight. */
  function Shiny(color: Color, albedo: real, reflectivity: real): (m: Material)
    ensures m == New(color, albedo, reflectivity, 1250.0, 0.2)
  {
    Material(color, albedo, reflectivity, 1250.0, 0.2)
  }

  /** `Material::matte`: no reflection and no highlight. */
  function Matte(color: Color, albedo: real): (m: Material)
    ensures m == New(color, albedo, 0.0, 0.0, 0.0)
    ensures !(m.reflectivity > 0.0)
  {
    Material(color, albedo, 0.0, 0.0, 0.0)
  }
}
